/** When the chunked decoder rejects: at the first byte that no message can go on with, and never before or after. */
module ChunkedRejection {
  import Abnf
  import opened Bytes
  import opened ChunkedAutomaton
  import opened ChunkedGrammar

  ghost predicate CanComplete(d: Decoder) {
    exists t :: Decode(d, t).verdict == Complete
  }

  lemma OneByte(d: Decoder, b: Byte)
    ensures Decode(d, [b]) == Feed(Outcome(Normalize(d), [], [], Incomplete), b)
  {
    assert [b][..0] == [];
  }

  lemma GoesOn(d: Decoder, b: Byte)
    requires Normalize(d) == d
    requires React(d, b).Finish? || (React(d, b).Stay? && CanComplete(React(d, b).decoder))
    ensures CanComplete(d)
  {
    OneByte(d, b);
    hide Decode, React;
    if React(d, b).Finish? {
      assert Decode(d, [b]).verdict == Complete;
    } else {
      var t :| Decode(React(d, b).decoder, t).verdict == Complete;
      FragmentationInvariance(d, [b], t);
      assert Decode(d, [b] + t).verdict == Complete;
    }
  }

  lemma AtHead(d: Decoder)
    requires d.state == TrailersLineHead
    ensures CanComplete(d)
  {
    GoesOn(d, LF);
  }

  /** Where a new size line starts, the last chunk may come. */
  lemma AtSizeLine(d: Decoder)
    requires d.state == ChunkSize && d.hexCount == 0 && d.bytesLeft == 0
    ensures CanComplete(d)
  {
    var zero: Byte := '0' as int;
    var e := d.(hexCount := 1);
    assert React(d, zero) == Stay(e, []);
    if e.consumeTrailer {
      AtHead(e.(hexCount := 0, state := TrailersLineHead));
    }
    hide CanComplete;
    GoesOn(e, LF);
    GoesOn(d, zero);
  }

  lemma {:induction false} InChunkData(d: Decoder)
    requires d.state == ChunkData && d.bytesLeft > 0 && d.hexCount == 0
    ensures CanComplete(d)
    decreases d.bytesLeft
  {
    var e := d.(bytesLeft := d.bytesLeft - 1);
    hide CanComplete;
    if e.bytesLeft > 0 {
      InChunkData(e);
    } else {
      AtCrlf(Normalize(e));
    }
    GoesOn(d, LF);
  }

  lemma AtCrlf(d: Decoder)
    requires d.state == ChunkCrlf && d.bytesLeft == 0 && d.hexCount == 0
    ensures CanComplete(d)
  {
    AtSizeLine(d.(state := ChunkSize));
    hide CanComplete;
    GoesOn(d, LF);
  }

  /** The line feed of a size line leads on from wherever the line may end. */
  lemma AtSizeLineEnd(d: Decoder)
    requires WellSized(d) && (d.state == ChunkExt || (d.state == ChunkSize && d.hexCount > 0))
    ensures CanComplete(d)
  {
    hide CanComplete, Pow16;
    if d.bytesLeft > 0 {
      InChunkData(d.(hexCount := 0, state := ChunkData));
    } else if d.consumeTrailer {
      AtHead(d.(hexCount := 0, state := TrailersLineHead));
    }
    GoesOn(d, LF);
  }

  /** Every decoder that still wants input can be brought to the end of a message. */
  lemma NoDeadEnd(d: Decoder)
    requires WellSized(d)
    ensures CanComplete(d)
  {
    hide CanComplete;
    match d.state {
      case ChunkSize =>
        if d.hexCount == 0 {
          AtSizeLine(d);
        } else {
          AtSizeLineEnd(d);
        }
      case ChunkExt => AtSizeLineEnd(d);
      case ChunkData => InChunkData(d);
      case ChunkCrlf => AtCrlf(d);
      case TrailersLineHead => AtHead(d);
      case TrailersLineMiddle =>
        AtHead(d.(state := TrailersLineHead));
        GoesOn(d, LF);
    }
  }

  /** `s` can be the beginning of a stream that starts with a message, or starts with one already. */
  ghost predicate Hopeful(consumeTrailer: bool, s: seq<Byte>) {
    exists t, m, rest :: WellFormed(m) && s + t == Encode(m, consumeTrailer) + rest
  }

  lemma HopefulIsNotRejected(consumeTrailer: bool, s: seq<Byte>)
    requires Hopeful(consumeTrailer, s)
    ensures Decode(Fresh(consumeTrailer), s).verdict != Failed
  {
    hide Decode, Encode, WellFormed, Payload;
    var t, m, rest :| WellFormed(m) && s + t == Encode(m, consumeTrailer) + rest;
    MessageCompletes(m, consumeTrailer, rest);
    FragmentationInvariance(Fresh(consumeTrailer), s, t);
  }

  lemma NotRejectedIsHopeful(consumeTrailer: bool, s: seq<Byte>)
    requires Decode(Fresh(consumeTrailer), s).verdict != Failed
    ensures Hopeful(consumeTrailer, s)
  {
    hide Decode, Encode, WellFormed, Payload, WellSized;
    var d := Fresh(consumeTrailer);
    var o, t := Decode(d, s), [];
    if o.verdict == Incomplete {
      WellSizedRun(consumeTrailer, s);
      NoDeadEnd(o.decoder);
      t :| Decode(o.decoder, t).verdict == Complete;
    }
    FragmentationInvariance(d, s, t);
    CompleteIsMessage(consumeTrailer, s + t);
    var m :| Decodes(consumeTrailer, s + t, Decode(d, s + t), m);
    assert s + t == Encode(m, consumeTrailer) + Decode(d, s + t).rest;
  }

  /** However the stream is cut, the decoder rejects exactly when no continuation can make a message of what it has
      read: it neither rejects too early nor asks for more in vain. */
  lemma RejectsExactlyTheHopeless(consumeTrailer: bool, fragments: seq<seq<Byte>>)
    ensures DecodeFragments(Fresh(consumeTrailer), fragments).verdict == Failed
       <==> !Hopeful(consumeTrailer, Concat(fragments))
  {
    AnyFragmentation(Fresh(consumeTrailer), fragments);
    var s := Concat(fragments);
    hide Hopeful, Decode, DecodeFragments;
    if Decode(Fresh(consumeTrailer), s).verdict != Failed {
      NotRejectedIsHopeful(consumeTrailer, s);
    } else if Hopeful(consumeTrailer, s) {
      HopefulIsNotRejected(consumeTrailer, s);
    }
  }

  // ---------- What a rejection leaves ----------

  /** Byte `k` is the first that leaves no hope; it and all behind it are left over, and the output is the data in
      front. */
  ghost predicate RejectedAt(consumeTrailer: bool, s: seq<Byte>, k: nat) {
    var o := Decode(Fresh(consumeTrailer), s);
    && k < |s| && o.rest == s[k..] && o.output == Data(Track(s[..k]))
    && Hopeful(consumeTrailer, s[..k]) && !Hopeful(consumeTrailer, s[..k + 1])
  }

  lemma RejectedHere(consumeTrailer: bool, pre: seq<Byte>, b: Byte)
    requires Decode(Fresh(consumeTrailer), pre).verdict == Incomplete
    requires Decode(Fresh(consumeTrailer), pre + [b]).verdict == Failed
    ensures RejectedAt(consumeTrailer, pre + [b], |pre|)
  {
    var d, s := Fresh(consumeTrailer), pre + [b];
    DecodeSnoc(d, pre, b);
    DecodeSizes(d, pre);
    hide Hopeful, Data, Track, Decode, React, StandsAt;
    assert s[..|pre|] == pre && s[..|pre| + 1] == s && s[|pre|..] == [b];
    DecoderTracks(consumeTrailer, pre);
    StandsAtOutput(consumeTrailer, pre, Track(pre));
    NotRejectedIsHopeful(consumeTrailer, pre);
    if Hopeful(consumeTrailer, s) {
      HopefulIsNotRejected(consumeTrailer, s);
    }
  }

  lemma RejectedBefore(consumeTrailer: bool, pre: seq<Byte>, b: Byte, k: nat)
    requires Decode(Fresh(consumeTrailer), pre).verdict == Failed && RejectedAt(consumeTrailer, pre, k)
    ensures RejectedAt(consumeTrailer, pre + [b], k)
  {
    var s := pre + [b];
    DecodeSnoc(Fresh(consumeTrailer), pre, b);
    hide Hopeful, Data, Track, Decode;
    assert s[..k] == pre[..k] && s[..k + 1] == pre[..k + 1] && s[k..] == pre[k..] + [b];
  }

  /** A rejection comes at the first byte that leaves no hope, and gives out all the data in front of it. */
  lemma {:induction false} RejectsAtTheByte(consumeTrailer: bool, s: seq<Byte>) returns (k: nat)
    requires Decode(Fresh(consumeTrailer), s).verdict == Failed
    ensures RejectedAt(consumeTrailer, s, k)
  {
    var d, pre, b := Fresh(consumeTrailer), s[..|s| - 1], s[|s| - 1];
    assert s == pre + [b];
    DecodeSnoc(d, pre, b);
    hide RejectedAt, Decode, React;
    if Decode(d, pre).verdict == Incomplete {
      k := |pre|;
      RejectedHere(consumeTrailer, pre, b);
    } else {
      k := RejectsAtTheByte(consumeTrailer, pre);
      RejectedBefore(consumeTrailer, pre, b, k);
    }
  }

  lemma StandsAtOutput(consumeTrailer: bool, s: seq<Byte>, p: Progress)
    requires StandsAt(consumeTrailer, s, p)
    ensures Decode(Fresh(consumeTrailer), s).output == Data(p)
  {
  }

  /** A decoder that has rejected what is left over rejects it again, and nothing changes any more. */
  lemma {:induction false} RejectionRepeats(d: Decoder, s: seq<Byte>)
    requires Decode(d, s).verdict == Failed
    ensures var o := Decode(d, s);
      |o.rest| > 0 && Decode(o.decoder, o.rest) == Outcome(o.decoder, [], o.rest, Failed)
  {
    var pre, b := s[..|s| - 1], s[|s| - 1];
    var o := Decode(d, pre);
    if o.verdict == Incomplete {
      DecodedIsNormal(d, pre);
      var e := React(o.decoder, b).rejected;
      OneByte(e, b);
      assert React(Normalize(e), b) == Reject(e);
    } else {
      RejectionRepeats(d, pre);
      FragmentationInvariance(o.decoder, o.rest, [b]);
    }
  }

  /** A decoder that has completed is where the last line feed found it: one more completes it again. */
  lemma {:induction false} CompletionRepeats(d: Decoder, s: seq<Byte>)
    requires Decode(d, s).verdict == Complete
    ensures var o := Decode(d, s);
      Decode(o.decoder, [Abnf.LF]) == Outcome(o.decoder, [], [], Complete)
  {
    var pre, b := s[..|s| - 1], s[|s| - 1];
    var o := Decode(d, pre);
    if o.verdict == Incomplete {
      DecodedIsNormal(d, pre);
      var e := React(o.decoder, b).finished;
      OneByte(e, Abnf.LF);
      assert React(Normalize(e), Abnf.LF) == Finish(e);
    } else {
      CompletionRepeats(d, pre);
    }
  }
}
