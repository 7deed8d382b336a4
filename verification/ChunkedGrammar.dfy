/** Chunked messages as a grammar (section 4.1 of RFC 7230, as leniently as the decoder reads it), and the theorem
    that the decoder completes on exactly the messages of the grammar and yields their payload. */
module ChunkedGrammar {
  import Abnf
  import opened Bytes
  import opened ChunkedAutomaton

  /** One chunk: its size line `digits ext LF`, its data, and the carriage returns before the closing LF. */
  datatype Chunk = Chunk(digits: seq<Byte>, ext: seq<Byte>, data: seq<Byte>, crs: nat)

  /** One non-empty trailer line: carriage returns, a byte that ends no line, and the rest up to LF. */
  datatype TrailerLine = TrailerLine(crs: nat, first: Byte, rest: seq<Byte>)

  /** A message: its chunks, the zero-size line, and, when trailers are read, their lines and the closing empty line. */
  datatype Message = Message(chunks: seq<Chunk>, zeros: seq<Byte>, ext: seq<Byte>, trailers: seq<TrailerLine>, crs: nat)

  function HexValue(digits: seq<Byte>): nat {
    if |digits| == 0 then 0
    else
      var v := Abnf.HexDigitValue(digits[|digits| - 1]);
      HexValue(digits[..|digits| - 1]) * 16 + if v == -1 then 0 else v
  }

  function Crs(n: nat): (s: seq<Byte>)
    ensures |s| == n && forall i :: 0 <= i < n ==> s[i] == Abnf.CR
  {
    seq(n, _ => Abnf.CR)
  }

  predicate NoLF(s: seq<Byte>) {
    forall i :: 0 <= i < |s| ==> s[i] != Abnf.LF
  }

  predicate HexDigits(s: seq<Byte>) {
    |s| <= MAX_HEX_DIGITS && forall i :: 0 <= i < |s| ==> Abnf.IsHexDigit(s[i])
  }

  /** `digits ext` reads as a size: 1 to 16 hex digits, and an extension that neither continues them nor ends the
      line. */
  predicate SizeLine(digits: seq<Byte>, ext: seq<Byte>) {
    |digits| > 0 && HexDigits(digits) && NoLF(ext) && (|ext| > 0 ==> !Abnf.IsHexDigit(ext[0]))
  }

  predicate WellFormedChunk(c: Chunk) {
    SizeLine(c.digits, c.ext) && HexValue(c.digits) == |c.data| > 0
  }

  predicate WellFormedLine(l: TrailerLine) {
    l.first != Abnf.CR && l.first != Abnf.LF && NoLF(l.rest)
  }

  predicate WellFormed(m: Message) {
    && (forall i :: 0 <= i < |m.chunks| ==> WellFormedChunk(m.chunks[i]))
    && SizeLine(m.zeros, m.ext) && HexValue(m.zeros) == 0
    && (forall i :: 0 <= i < |m.trailers| ==> WellFormedLine(m.trailers[i]))
  }

  /** `text` followed by a chunk; appending keeps concatenations nested to the left, as they are read. */
  function AppendChunk(text: seq<Byte>, c: Chunk): seq<Byte> {
    text + c.digits + c.ext + [Abnf.LF] + c.data + Crs(c.crs) + [Abnf.LF]
  }

  function EncodeChunks(cs: seq<Chunk>): seq<Byte> {
    if |cs| == 0 then [] else AppendChunk(EncodeChunks(cs[..|cs| - 1]), cs[|cs| - 1])
  }

  function AppendLine(text: seq<Byte>, l: TrailerLine): seq<Byte> {
    text + Crs(l.crs) + [l.first] + l.rest + [Abnf.LF]
  }

  function AppendLines(text: seq<Byte>, ls: seq<TrailerLine>): seq<Byte> {
    if |ls| == 0 then text else AppendLine(AppendLines(text, ls[..|ls| - 1]), ls[|ls| - 1])
  }

  function Encode(m: Message, withTrailer: bool): seq<Byte> {
    var body := EncodeChunks(m.chunks) + m.zeros + m.ext + [Abnf.LF];
    if withTrailer then AppendLines(body, m.trailers) + Crs(m.crs) + [Abnf.LF] else body
  }

  function Payload(cs: seq<Chunk>): seq<Byte> {
    if |cs| == 0 then [] else Payload(cs[..|cs| - 1]) + cs[|cs| - 1].data
  }

  // ---------- How far into the grammar a prefix of the input has got ----------

  datatype Progress =
    | InSize(cs: seq<Chunk>, digits: seq<Byte>)
    | InExt(cs: seq<Chunk>, digits: seq<Byte>, ext: seq<Byte>)
    | InData(cs: seq<Chunk>, digits: seq<Byte>, ext: seq<Byte>, data: seq<Byte>)
    | InCrlf(cs: seq<Chunk>, digits: seq<Byte>, ext: seq<Byte>, data: seq<Byte>, crs: nat)
    | InHead(cs: seq<Chunk>, digits: seq<Byte>, ext: seq<Byte>, lines: seq<TrailerLine>, crs: nat)
    | InMiddle(cs: seq<Chunk>, digits: seq<Byte>, ext: seq<Byte>, lines: seq<TrailerLine>, crs: nat,
               first: Byte, line: seq<Byte>)

  /** The input read so far. */
  function Text(p: Progress): seq<Byte> {
    var line := EncodeChunks(p.cs) + p.digits;
    match p
    case InSize(_, _) => line
    case InExt(_, _, ext) => line + ext
    case InData(_, _, ext, data) => line + ext + [Abnf.LF] + data
    case InCrlf(_, _, ext, data, crs) => line + ext + [Abnf.LF] + data + Crs(crs)
    case InHead(_, _, ext, lines, crs) => AppendLines(line + ext + [Abnf.LF], lines) + Crs(crs)
    case InMiddle(_, _, ext, lines, crs, first, rest) =>
      AppendLines(line + ext + [Abnf.LF], lines) + Crs(crs) + [first] + rest
  }

  function Data(p: Progress): seq<Byte> {
    Payload(p.cs) + if p.InData? || p.InCrlf? then p.data else []
  }

  predicate Sound(p: Progress) {
    && (forall i :: 0 <= i < |p.cs| ==> WellFormedChunk(p.cs[i]))
    && HexDigits(p.digits)
    && (!p.InSize? ==> SizeLine(p.digits, p.ext))
    && (p.InData? ==> |p.data| < HexValue(p.digits))
    && (p.InCrlf? ==> |p.data| == HexValue(p.digits) > 0)
    && (p.InHead? || p.InMiddle? ==>
          HexValue(p.digits) == 0 && forall i :: 0 <= i < |p.lines| ==> WellFormedLine(p.lines[i]))
    && (p.InExt? ==> |p.ext| > 0)
    && (p.InMiddle? ==> p.first != Abnf.CR && p.first != Abnf.LF && NoLF(p.line))
  }

  /** The decoder that stands at `p`. */
  function DecoderAt(p: Progress, consumeTrailer: bool): Decoder {
    match p
    case InSize(_, digits) => Decoder(HexValue(digits), consumeTrailer, |digits|, ChunkSize)
    case InExt(_, digits, _) => Decoder(HexValue(digits), consumeTrailer, 0, ChunkExt)
    case InData(_, digits, _, data) =>
      Decoder(if |data| <= HexValue(digits) then HexValue(digits) - |data| else 0, consumeTrailer, 0, ChunkData)
    case InCrlf(_, _, _, _, _) => Decoder(0, consumeTrailer, 0, ChunkCrlf)
    case InHead(_, _, _, _, _) => Decoder(0, consumeTrailer, 0, TrailersLineHead)
    case InMiddle(_, _, _, _, _, _, _) => Decoder(0, consumeTrailer, 0, TrailersLineMiddle)
  }

  /** Where the grammar stands after one more byte. */
  function Advance(p: Progress, b: Byte): Progress {
    match p
    case InSize(cs, digits) =>
      if Abnf.IsHexDigit(b) then InSize(cs, digits + [b])
      else if b != Abnf.LF then InExt(cs, digits, [b])
      else AfterSizeLine(cs, digits, [])
    case InExt(cs, digits, ext) =>
      if b != Abnf.LF then InExt(cs, digits, ext + [b]) else AfterSizeLine(cs, digits, ext)
    case InData(cs, digits, ext, data) =>
      if |data| + 1 == HexValue(digits) then InCrlf(cs, digits, ext, data + [b], 0)
      else InData(cs, digits, ext, data + [b])
    case InCrlf(cs, digits, ext, data, crs) =>
      if b == Abnf.CR then InCrlf(cs, digits, ext, data, crs + 1)
      else InSize(cs + [Chunk(digits, ext, data, crs)], [])
    case InHead(cs, digits, ext, lines, crs) =>
      if b == Abnf.CR then InHead(cs, digits, ext, lines, crs + 1)
      else InMiddle(cs, digits, ext, lines, crs, b, [])
    case InMiddle(cs, digits, ext, lines, crs, first, line) =>
      if b != Abnf.LF then InMiddle(cs, digits, ext, lines, crs, first, line + [b])
      else InHead(cs, digits, ext, lines + [TrailerLine(crs, first, line)], 0)
  }

  function AfterSizeLine(cs: seq<Chunk>, digits: seq<Byte>, ext: seq<Byte>): Progress {
    if HexValue(digits) > 0 then InData(cs, digits, ext, []) else InHead(cs, digits, ext, [], 0)
  }

  lemma DigitsAt(k: nat)
    requires k < 16
    ensures Abnf.LOWER_DIGITS[k] as int == (if k < 10 then 48 else 87) + k
    ensures Abnf.UPPER_DIGITS[k] as int == (if k < 10 then 48 else 55) + k
  {
    if k < 8 {
      if k < 4 {} else {}
    } else {
      if k < 12 {} else {}
    }
  }

  /** decode_hex is the value of a digit, of all 22 that there are, and of nothing else. */
  lemma DecodeHexIsValue(b: Byte)
    ensures DecodeHex(b) == Abnf.HexDigitValue(b)
    ensures IsHex(b) <==> Abnf.IsHexDigit(b)
  {
    var v, i, j := DecodeHex(b), Abnf.IndexOf(Abnf.LOWER_DIGITS, b), Abnf.IndexOf(Abnf.UPPER_DIGITS, b);
    hide Abnf.IndexOf;
    if v != -1 {
      DigitsAt(v);
    }
    if i != -1 {
      DigitsAt(i);
    }
    if j != -1 {
      DigitsAt(j);
    }
  }

  lemma LfIsNoDigit()
    ensures !IsHex(Abnf.LF) && !Abnf.IsHexDigit(Abnf.LF)
  {
    DecodeHexIsValue(Abnf.LF);
  }

  lemma {:induction false} HexValueBound(digits: seq<Byte>)
    requires HexDigits(digits)
    ensures HexValue(digits) < Pow16(|digits|) <= SIZE_MODULUS
  {
    SixteenDigitsFit();
    Pow16Monotone(|digits|, MAX_HEX_DIGITS);
    if |digits| > 0 {
      HexValueBound(digits[..|digits| - 1]);
    }
  }

  lemma HexValueSnoc(digits: seq<Byte>, b: Byte)
    requires Abnf.IsHexDigit(b)
    ensures HexValue(digits + [b]) == HexValue(digits) * 16 + DecodeHex(b)
  {
    DecodeHexIsValue(b);
    hide Abnf.HexDigitValue, DecodeHex, IsHex;
    assert (digits + [b])[..|digits|] == digits;
  }

  lemma Append(a: seq<Byte>, s: seq<Byte>, b: Byte)
    ensures a + (s + [b]) == a + s + [b]
    ensures a + [] == a
  {
  }

  lemma TextAdvancesChunk(p: Progress, b: Byte)
    requires p.InSize? || p.InExt? || p.InData?
    ensures Text(Advance(p, b)) == Text(p) + [b]
  {
    hide HexValue, EncodeChunks;
    var line := EncodeChunks(p.cs) + p.digits;
    match p {
      case InSize(cs, digits) =>
        Append(EncodeChunks(cs), digits, b);
        Append(line, [], b);
        Append(line + [Abnf.LF], [], b);
      case InExt(cs, digits, ext) =>
        Append(line, ext, b);
        Append(line + ext + [Abnf.LF], [], b);
      case InData(cs, digits, ext, data) =>
        Append(line + ext + [Abnf.LF], data, b);
        Append(line + ext + [Abnf.LF] + (data + [b]), [], b);
    }
  }

  lemma TextAdvancesCrlf(p: Progress, b: Byte)
    requires p.InCrlf? && (b == Abnf.CR || b == Abnf.LF)
    ensures Text(Advance(p, b)) == Text(p) + [b]
  {
    var c := Chunk(p.digits, p.ext, p.data, p.crs);
    assert Crs(p.crs + 1) == Crs(p.crs) + [Abnf.CR];
    Append(EncodeChunks(p.cs) + p.digits + p.ext + [Abnf.LF] + p.data, Crs(p.crs), b);
    assert (p.cs + [c])[..|p.cs|] == p.cs;
    Append(EncodeChunks(p.cs + [c]), [], b);
  }

  lemma TextAdvancesTrailer(p: Progress, b: Byte)
    requires p.InHead? || p.InMiddle?
    ensures Text(Advance(p, b)) == Text(p) + [b]
  {
    hide EncodeChunks;
    var body := EncodeChunks(p.cs) + p.digits + p.ext + [Abnf.LF];
    if p.InHead? {
      assert Crs(p.crs + 1) == Crs(p.crs) + [Abnf.CR];
      Append(AppendLines(body, p.lines), Crs(p.crs), b);
      Append(Text(p) + [b], [], b);
    } else {
      var l := TrailerLine(p.crs, p.first, p.line);
      Append(AppendLines(body, p.lines) + Crs(p.crs) + [p.first], p.line, b);
      assert (p.lines + [l])[..|p.lines|] == p.lines;
      Append(AppendLines(body, p.lines + [l]), [], b);
    }
  }

  lemma TextAdvances(p: Progress, b: Byte)
    requires p.InCrlf? ==> b == Abnf.CR || b == Abnf.LF
    ensures Text(Advance(p, b)) == Text(p) + [b]
  {
    hide *;
    if p.InCrlf? {
      TextAdvancesCrlf(p, b);
    } else if p.InHead? || p.InMiddle? {
      TextAdvancesTrailer(p, b);
    } else {
      TextAdvancesChunk(p, b);
    }
  }

  /** Whether the decoder, reading trailers or not, can stand at `p`. */
  predicate Possible(p: Progress, consumeTrailer: bool) {
    Sound(p) && (p.InHead? || p.InMiddle? ==> consumeTrailer)
  }

  /** One byte moves the decoder to where it moves the grammar. */
  ghost predicate MovesTogether(p: Progress, consumeTrailer: bool, b: Byte)
    requires React(DecoderAt(p, consumeTrailer), b).Stay?
  {
    && Possible(Advance(p, b), consumeTrailer)
    && React(DecoderAt(p, consumeTrailer), b).decoder == DecoderAt(Advance(p, b), consumeTrailer)
    && Data(Advance(p, b)) == Data(p) + React(DecoderAt(p, consumeTrailer), b).emitted
  }

  lemma AdvanceTracksDigit(p: Progress, consumeTrailer: bool, b: Byte)
    requires Possible(p, consumeTrailer) && React(DecoderAt(p, consumeTrailer), b).Stay?
    requires p.InSize? && Abnf.IsHexDigit(b)
    ensures MovesTogether(p, consumeTrailer, b)
  {
    DecodeHexIsValue(b);
    hide Pow16, Payload, HexValue, Abnf.IsHexDigit, Abnf.HexDigitValue, DecodeHex, IsHex;
    var d := p.digits + [b];
    HexValueSnoc(p.digits, b);
    assert |p.digits| < MAX_HEX_DIGITS && HexDigits(d);
    assert HexValue(d) < SIZE_MODULUS by {
      HexValueBound(d);
    }
  }

  lemma AdvanceTracksLine(p: Progress, consumeTrailer: bool, b: Byte)
    requires Possible(p, consumeTrailer) && React(DecoderAt(p, consumeTrailer), b).Stay?
    requires (p.InSize? && !Abnf.IsHexDigit(b)) || p.InExt? || p.InHead? || p.InMiddle?
    ensures MovesTogether(p, consumeTrailer, b)
  {
    DecodeHexIsValue(b);
    hide Pow16, Payload, HexValue, Abnf.IsHexDigit, Abnf.HexDigitValue, DecodeHex, IsHex;
  }

  lemma AdvanceTracksData(p: Progress, consumeTrailer: bool, b: Byte)
    requires Possible(p, consumeTrailer) && React(DecoderAt(p, consumeTrailer), b).Stay?
    requires p.InData? || p.InCrlf?
    ensures MovesTogether(p, consumeTrailer, b)
  {
    hide Pow16;
    if p.InData? {
      Append(Payload(p.cs), p.data, b);
    } else {
      var c := Chunk(p.digits, p.ext, p.data, p.crs);
      assert (p.cs + [c])[..|p.cs|] == p.cs;
    }
  }

  lemma AdvanceTracks(p: Progress, consumeTrailer: bool, b: Byte)
    requires Possible(p, consumeTrailer) && React(DecoderAt(p, consumeTrailer), b).Stay?
    ensures MovesTogether(p, consumeTrailer, b)
  {
    hide *;
    if p.InSize? && Abnf.IsHexDigit(b) {
      AdvanceTracksDigit(p, consumeTrailer, b);
    } else if p.InData? || p.InCrlf? {
      AdvanceTracksData(p, consumeTrailer, b);
    } else {
      AdvanceTracksLine(p, consumeTrailer, b);
    }
  }

  /** Where the grammar stands after `s`. */
  function Track(s: seq<Byte>): Progress {
    if |s| == 0 then InSize([], []) else Advance(Track(s[..|s| - 1]), s[|s| - 1])
  }

  /** The decoder has read `s` and stands at `p`: `p` is `s` parsed, and the output is its data. */
  ghost predicate StandsAt(consumeTrailer: bool, s: seq<Byte>, p: Progress) {
    && Possible(p, consumeTrailer)
    && Text(p) == s
    && Decode(Fresh(consumeTrailer), s) == Outcome(DecoderAt(p, consumeTrailer), Data(p), [], Incomplete)
  }

  lemma StandsAtIs(consumeTrailer: bool, s: seq<Byte>, p: Progress)
    requires StandsAt(consumeTrailer, s, p)
    ensures Decode(Fresh(consumeTrailer), s).decoder == DecoderAt(p, consumeTrailer)
  {
  }

  lemma StandsAtNext(consumeTrailer: bool, s: seq<Byte>, p: Progress, b: Byte)
    requires StandsAt(consumeTrailer, s, p) && React(DecoderAt(p, consumeTrailer), b).Stay?
    ensures StandsAt(consumeTrailer, s + [b], Advance(p, b))
  {
    assert p.InCrlf? ==> b == Abnf.CR || b == Abnf.LF;
    hide Decode, Text, Sound, Advance, Data, Payload, DecoderAt, React;
    AdvanceTracks(p, consumeTrailer, b);
    TextAdvances(p, b);
    DecodeSnoc(Fresh(consumeTrailer), s, b);
  }

  /** A decoder that still wants input has read a prefix of a message, and has output that prefix's data. */
  lemma {:induction false} DecoderTracks(consumeTrailer: bool, s: seq<Byte>)
    requires Decode(Fresh(consumeTrailer), s).verdict == Incomplete
    ensures StandsAt(consumeTrailer, s, Track(s))
  {
    if |s| > 0 {
      var pre, b := s[..|s| - 1], s[|s| - 1];
      assert pre + [b] == s;
      IncompleteBefore(Fresh(consumeTrailer), pre, b);
      hide Decode, StandsAt, React;
      DecoderTracks(consumeTrailer, pre);
      StandsAtIs(consumeTrailer, pre, Track(pre));
      StandsAtNext(consumeTrailer, pre, Track(pre), b);
    }
  }

  lemma IncompleteBefore(d: Decoder, pre: seq<Byte>, b: Byte)
    requires Decode(d, pre + [b]).verdict == Incomplete
    ensures Decode(d, pre).verdict == Incomplete && React(Decode(d, pre).decoder, b).Stay?
  {
    hide React, Decode;
    DecodeSnoc(d, pre, b);
  }

  /** The message that ends with the line feed behind `p`. */
  function Finished(p: Progress): Message {
    match p
    case InSize(cs, digits) => Message(cs, digits, [], [], 0)
    case InHead(cs, digits, ext, lines, crs) => Message(cs, digits, ext, lines, crs)
    case _ => Message(p.cs, p.digits, p.ext, [], 0)
  }

  lemma FinishTracks(p: Progress, consumeTrailer: bool, b: Byte)
    requires Possible(p, consumeTrailer) && React(DecoderAt(p, consumeTrailer), b).Finish?
    ensures WellFormed(Finished(p)) && Encode(Finished(p), consumeTrailer) == Text(p) + [b]
    ensures Payload(Finished(p).chunks) == Data(p)
  {
    DecodeHexIsValue(b);
    hide Abnf.IsHexDigit, DecodeHex, IsHex, HexValue;
    if p.InSize? {
      Append(EncodeChunks(p.cs) + p.digits, [], b);
    }
  }

  ghost predicate Decodes(consumeTrailer: bool, s: seq<Byte>, o: Outcome, m: Message) {
    WellFormed(m) && s == Encode(m, consumeTrailer) + o.rest && o.output == Payload(m.chunks)
  }

  lemma CompletesHere(consumeTrailer: bool, s: seq<Byte>, p: Progress, b: Byte)
    requires StandsAt(consumeTrailer, s, p) && React(DecoderAt(p, consumeTrailer), b).Finish?
    ensures var o := Decode(Fresh(consumeTrailer), s + [b]);
      o.verdict == Complete && o.rest == [] && Decodes(consumeTrailer, s + [b], o, Finished(p))
  {
    hide Decode, Text, Sound, Data, Encode, Payload, DecoderAt, React, WellFormed;
    FinishTracks(p, consumeTrailer, b);
    DecodeSnoc(Fresh(consumeTrailer), s, b);
    Append(Text(p) + [b], [], b);
  }

  lemma DecodesWithMore(consumeTrailer: bool, s: seq<Byte>, o: Outcome, m: Message, b: Byte)
    requires Decodes(consumeTrailer, s, o, m)
    ensures Decodes(consumeTrailer, s + [b], o.(rest := o.rest + [b]), m)
  {
    hide WellFormed, Encode, Payload;
    Append(Encode(m, consumeTrailer), o.rest, b);
  }

  /** What the decoder completes on is a message of the grammar, followed by what it leaves over. */
  lemma {:induction false} CompleteIsMessage(consumeTrailer: bool, s: seq<Byte>)
    requires Decode(Fresh(consumeTrailer), s).verdict == Complete
    ensures exists m :: Decodes(consumeTrailer, s, Decode(Fresh(consumeTrailer), s), m)
  {
    hide Decodes, React, DecoderAt, StandsAt, Normalize;
    var pre, b := s[..|s| - 1], s[|s| - 1];
    assert s == pre + [b];
    var before := Decode(Fresh(consumeTrailer), pre);
    if before.verdict == Incomplete {
      DecoderTracks(consumeTrailer, pre);
      assert before.decoder == DecoderAt(Track(pre), consumeTrailer) by {
        StandsAtIs(consumeTrailer, pre, Track(pre));
      }
      CompletesHere(consumeTrailer, pre, Track(pre), b);
    } else {
      CompleteIsMessage(consumeTrailer, pre);
      var m :| Decodes(consumeTrailer, pre, before, m);
      DecodesWithMore(consumeTrailer, pre, before, m, b);
    }
  }

  /** The place in the grammar one byte earlier, and that byte. */
  function Back(p: Progress): (Progress, Byte)
    requires Sound(p) && p != InSize([], [])
  {
    match p
    case InSize(cs, digits) =>
      if |digits| > 0 then (InSize(cs, digits[..|digits| - 1]), digits[|digits| - 1])
      else var c := cs[|cs| - 1]; (InCrlf(cs[..|cs| - 1], c.digits, c.ext, c.data, c.crs), Abnf.LF)
    case InExt(cs, digits, ext) =>
      (if |ext| == 1 then InSize(cs, digits) else InExt(cs, digits, ext[..|ext| - 1]), ext[|ext| - 1])
    case InData(cs, digits, ext, data) =>
      if |data| > 0 then (InData(cs, digits, ext, data[..|data| - 1]), data[|data| - 1])
      else (BeforeLF(cs, digits, ext), Abnf.LF)
    case InCrlf(cs, digits, ext, data, crs) =>
      if crs > 0 then (InCrlf(cs, digits, ext, data, crs - 1), Abnf.CR)
      else (InData(cs, digits, ext, data[..|data| - 1]), data[|data| - 1])
    case InHead(cs, digits, ext, lines, crs) =>
      if crs > 0 then (InHead(cs, digits, ext, lines, crs - 1), Abnf.CR)
      else if |lines| > 0 then
        var l := lines[|lines| - 1];
        (InMiddle(cs, digits, ext, lines[..|lines| - 1], l.crs, l.first, l.rest), Abnf.LF)
      else (BeforeLF(cs, digits, ext), Abnf.LF)
    case InMiddle(cs, digits, ext, lines, crs, first, rest) =>
      if |rest| > 0 then (InMiddle(cs, digits, ext, lines, crs, first, rest[..|rest| - 1]), rest[|rest| - 1])
      else (InHead(cs, digits, ext, lines, crs), first)
  }

  function BeforeLF(cs: seq<Chunk>, digits: seq<Byte>, ext: seq<Byte>): Progress {
    if |ext| == 0 then InSize(cs, digits) else InExt(cs, digits, ext)
  }

  /** `p` is one byte behind `Back(p).0`. */
  ghost predicate Precedes(p: Progress, consumeTrailer: bool)
    requires Sound(p) && p != InSize([], [])
  {
    var (q, b) := Back(p);
    Possible(q, consumeTrailer) && Advance(q, b) == p && React(DecoderAt(q, consumeTrailer), b).Stay?
  }

  lemma BackInSize(p: Progress, consumeTrailer: bool)
    requires p.InSize? && Possible(p, consumeTrailer) && p != InSize([], [])
    ensures Precedes(p, consumeTrailer)
  {
    hide Pow16, HexValue, Abnf.IsHexDigit, DecodeHex, IsHex;
    if |p.digits| == 0 {
      var front, c := p.cs[..|p.cs| - 1], p.cs[|p.cs| - 1];
      assert WellFormedChunk(c);
      assert front + [c] == p.cs;
    } else {
      DecodeHexIsValue(p.digits[|p.digits| - 1]);
      assert p.digits[..|p.digits| - 1] + [p.digits[|p.digits| - 1]] == p.digits;
    }
  }

  lemma BackInLine(p: Progress, consumeTrailer: bool)
    requires (p.InExt? || p.InData?) && Possible(p, consumeTrailer)
    ensures Precedes(p, consumeTrailer)
  {
    hide Pow16, HexValue, Abnf.IsHexDigit, DecodeHex, IsHex;
    if p.InExt? {
      DecodeHexIsValue(p.ext[|p.ext| - 1]);
      assert p.ext[..|p.ext| - 1] + [p.ext[|p.ext| - 1]] == p.ext;
    } else if |p.data| > 0 {
      assert p.data[..|p.data| - 1] + [p.data[|p.data| - 1]] == p.data;
    } else {
      LfIsNoDigit();
    }
  }

  lemma BackInCrlf(p: Progress, consumeTrailer: bool)
    requires p.InCrlf? && Possible(p, consumeTrailer)
    ensures Precedes(p, consumeTrailer)
  {
    hide Pow16, HexValue;
    if p.crs == 0 {
      assert p.data[..|p.data| - 1] + [p.data[|p.data| - 1]] == p.data;
    }
  }

  lemma BackInTrailer(p: Progress, consumeTrailer: bool)
    requires (p.InHead? || p.InMiddle?) && Possible(p, consumeTrailer)
    ensures Precedes(p, consumeTrailer)
  {
    hide Pow16, HexValue;
    if p.InMiddle? {
      if |p.line| > 0 {
        assert p.line[..|p.line| - 1] + [p.line[|p.line| - 1]] == p.line;
      }
    } else if p.crs == 0 && |p.lines| > 0 {
      var front, l := p.lines[..|p.lines| - 1], p.lines[|p.lines| - 1];
      assert WellFormedLine(l);
      assert front + [l] == p.lines;
    }
  }

  /** The decoder gets to every place in the grammar, reading the text that leads there. */
  lemma {:induction false} Reached(p: Progress, consumeTrailer: bool)
    requires Possible(p, consumeTrailer)
    ensures StandsAt(consumeTrailer, Text(p), p)
    decreases |Text(p)|
  {
    if p != InSize([], []) {
      match p {
        case InSize(_, _) => BackInSize(p, consumeTrailer);
        case InCrlf(_, _, _, _, _) => BackInCrlf(p, consumeTrailer);
        case InExt(_, _, _) => BackInLine(p, consumeTrailer);
        case InData(_, _, _, _) => BackInLine(p, consumeTrailer);
        case _ => BackInTrailer(p, consumeTrailer);
      }
      var (q, b) := Back(p);
      assert Precedes(p, consumeTrailer);
      hide Text, Sound, Advance, Back, React, DecoderAt, StandsAt, Decode;
      TextAdvances(q, b);
      Reached(q, consumeTrailer);
      StandsAtNext(consumeTrailer, Text(q), q, b);
    }
  }

  /** The place in the grammar just before the line feed that ends `m`. */
  function LastPlace(m: Message, withTrailer: bool): Progress {
    if withTrailer then InHead(m.chunks, m.zeros, m.ext, m.trailers, m.crs) else BeforeLF(m.chunks, m.zeros, m.ext)
  }

  lemma LastPlaceFinishes(m: Message, withTrailer: bool)
    requires WellFormed(m)
    ensures var p := LastPlace(m, withTrailer);
      && Possible(p, withTrailer) && React(DecoderAt(p, withTrailer), Abnf.LF).Finish?
      && Text(p) + [Abnf.LF] == Encode(m, withTrailer) && Finished(p).chunks == m.chunks
  {
    hide Pow16, HexValue, EncodeChunks, Payload;
    if |m.ext| == 0 {
      Append(EncodeChunks(m.chunks) + m.zeros, m.ext, Abnf.LF);
    }
  }

  /** The decoder completes on every message, outputs its payload and leaves over what follows it. */
  lemma MessageCompletes(m: Message, consumeTrailer: bool, rest: seq<Byte>)
    requires WellFormed(m)
    ensures var o := Decode(Fresh(consumeTrailer), Encode(m, consumeTrailer) + rest);
      o.verdict == Complete && o.output == Payload(m.chunks) && o.rest == rest
  {
    hide Text, Sound, DecoderAt, StandsAt, React, Decode, LastPlace, Encode, WellFormed, Finished, Payload;
    var p, d := LastPlace(m, consumeTrailer), Fresh(consumeTrailer);
    LastPlaceFinishes(m, consumeTrailer);
    Reached(p, consumeTrailer);
    CompletesHere(consumeTrailer, Text(p), p, Abnf.LF);
    FragmentationInvariance(d, Encode(m, consumeTrailer), rest);
    assert [] + rest == rest;
  }

  /** The decoder, called on the pieces of a stream however it is cut, completes exactly when the stream starts with
      a message; its output is then the message's payload and its leftover what follows the message. */
  lemma CompletesExactlyOnMessages(consumeTrailer: bool, fragments: seq<seq<Byte>>, output: seq<Byte>, rest: seq<Byte>)
    ensures var o := DecodeFragments(Fresh(consumeTrailer), fragments);
      (o.verdict == Complete && o.output == output && o.rest == rest)
      <==> exists m ::
             WellFormed(m) && Concat(fragments) == Encode(m, consumeTrailer) + rest && output == Payload(m.chunks)
  {
    var d, s := Fresh(consumeTrailer), Concat(fragments);
    var o := Decode(d, s);
    AnyFragmentation(d, fragments);
    hide WellFormed, Encode, Payload, Decode, DecodeFragments, Concat;
    if o.verdict == Complete && o.output == output && o.rest == rest {
      CompleteIsMessage(consumeTrailer, s);
      var m :| Decodes(consumeTrailer, s, o, m);
      assert s == Encode(m, consumeTrailer) + rest;
    }
    if m :| WellFormed(m) && s == Encode(m, consumeTrailer) + rest && output == Payload(m.chunks) {
      MessageCompletes(m, consumeTrailer, rest);
    }
  }
}
