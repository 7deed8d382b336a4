/** The request parser's loops, fast scanners included, against the steps of RequestSpec.dfy.  `sse42` selects the
    16-byte range scanner where the source's build does; the other build scans headers eight bytes at a time. */
module RequestParser {
  import Abnf
  import opened Wrappers
  import opened Bytes
  import opened RequestSpec
  import RequestGrammar

  /** A range of byte values, as the comparison instruction takes them in pairs. */
  datatype Range = Range(lo: Byte, hi: Byte)

  const TOKEN_RANGES: seq<Range> := [
    Range(0x00, 0x20), Range(0x22, 0x22), Range(0x28, 0x29), Range(0x2c, 0x2c),
    Range(0x2f, 0x2f), Range(0x3a, 0x40), Range(0x5b, 0x5d), Range(0x7b, 0xff)
  ]
  const TEXT_RANGES: seq<Range> := [Range(0, 8), Range(10, 31), Range(127, 127)]
  const PATH_RANGES: seq<Range> := [Range(0, 32), Range(127, 127)]

  predicate InRanges(b: Byte, ranges: seq<Range>) {
    exists k :: 0 <= k < |ranges| && ranges[k].lo <= b <= ranges[k].hi
  }

  /** The comparison instruction: the first byte of the block that is in the ranges, or the block's length. */
  function FirstInRanges(block: seq<Byte>, ranges: seq<Range>): (r: nat)
    ensures r <= |block|
    ensures forall j :: 0 <= j < r ==> !InRanges(block[j], ranges)
    ensures r < |block| ==> InRanges(block[r], ranges)
  {
    if |block| == 0 || InRanges(block[0], ranges) then 0 else 1 + FirstInRanges(block[1..], ranges)
  }

  // ---------- The ranges against the slow loops ----------

  /** The token ranges hold every byte that ends or spoils a token; only `|` and `~` are left to the slow loop. */
  lemma TokenRangesExact(b: Byte)
    ensures InRanges(b, TOKEN_RANGES) <==> !Abnf.IsTchar(b) || b == '|' as int || b == '~' as int
  {
    var r := TOKEN_RANGES;
    assert r[0] == Range(0x00, 0x20) && r[1] == Range(0x22, 0x22) && r[2] == Range(0x28, 0x29);
    assert r[3] == Range(0x2c, 0x2c) && r[4] == Range(0x2f, 0x2f) && r[5] == Range(0x3a, 0x40);
    assert r[6] == Range(0x5b, 0x5d) && r[7] == Range(0x7b, 0xff);
  }

  lemma TextRangesExact(b: Byte)
    ensures InRanges(b, TEXT_RANGES) <==> Abnf.IsCtl(b) && b != Abnf.HTAB
  {
    var r := TEXT_RANGES;
    assert r[0] == Range(0, 8) && r[1] == Range(10, 31) && r[2] == Range(127, 127);
  }

  lemma PathRangesExact(b: Byte)
    ensures InRanges(b, PATH_RANGES) <==> Abnf.IsCtl(b) || b == Abnf.SP
  {
    var r := PATH_RANGES;
    assert r[0] == Range(0, 32) && r[1] == Range(127, 127);
  }

  lemma {:induction false} TokenEndSkips(s: seq<Byte>, i: nat, k: nat, next: Byte)
    requires i <= k <= |s|
    requires forall j :: i <= j < k ==> IsTokenChar(s[j]) && s[j] != next
    ensures TokenEnd(s, i, next) == TokenEnd(s, k, next)
    decreases k - i
  {
    hide IsTokenChar;
    if i < k {
      TokenEndSkips(s, i + 1, k, next);
    }
  }

  lemma {:induction false} PathEndSkips(s: seq<Byte>, i: nat, k: nat)
    requires i <= k <= |s|
    requires forall j :: i <= j < k ==> !IsControl(s[j]) && s[j] != SP
    ensures PathEnd(s, i) == PathEnd(s, k)
    decreases k - i
  {
    if i < k {
      PathEndSkips(s, i + 1, k);
    }
  }

  lemma {:induction false} ControlAtSkips(s: seq<Byte>, i: nat, k: nat)
    requires i <= k <= |s|
    requires forall j :: i <= j < k ==> IsControl(s[j]) ==> s[j] == HT
    ensures ControlAt(s, i) == ControlAt(s, k)
    decreases k - i
  {
    if i < k {
      ControlAtSkips(s, i + 1, k);
    }
  }

  // ---------- The loops ----------

  /** Skips whole 16-byte blocks without a byte in the ranges, and up to that byte in the first block with one. */
  method FindCharFast(buf: seq<Byte>, start: nat, ranges: seq<Range>, sse42: bool) returns (pos: nat, found: bool)
    requires start <= |buf|
    ensures start <= pos <= |buf|
    ensures forall j :: start <= j < pos ==> !InRanges(buf[j], ranges)
    ensures found ==> pos < |buf| && InRanges(buf[pos], ranges)
    ensures if sse42 then found || |buf| - pos < 16 else pos == start && !found
  {
    pos, found := start, false;
    if sse42 && |buf| - pos >= 16 {
      var left := (|buf| - pos) / 16 * 16;
      while left != 0
        invariant !found && start <= pos && left % 16 == 0
        invariant 0 <= left <= |buf| - pos < left + 16
        invariant forall j :: start <= j < pos ==> !InRanges(buf[j], ranges)
      {
        var block := buf[pos..pos + 16];
        var r := FirstInRanges(block, ranges);
        assert forall j :: pos <= j < pos + r ==> buf[j] == block[j - pos];
        if r != 16 {
          assert buf[pos + r] == block[r];
          pos := pos + r;
          found := true;
          break;
        }
        pos := pos + 16;
        left := left - 16;
      }
    }
  }

  method ParseTokenLoop(buf: seq<Byte>, start: nat, next: Byte, sse42: bool) returns (r: Parsed<Slice>)
    requires start <= |buf| && (next == COLON || next == SP)
    ensures r == ParseToken(buf, start, next)
  {
    var pos, found := FindCharFast(buf, start, TOKEN_RANGES, sse42);
    assert TokenEnd(buf, start, next) == TokenEnd(buf, pos, next) by {
      forall j | start <= j < pos ensures IsTokenChar(buf[j]) && buf[j] != next {
        TokenRangesExact(buf[j]);
        RequestGrammar.TokenTableIsTchar(buf[j]);
        RequestGrammar.DelimitersAreNoTchars();
      }
      TokenEndSkips(buf, start, pos, next);
    }
    hide IsTokenChar, InRanges;
    if !found && pos == |buf| {
      return Partial;
    }
    while buf[pos] != next
      invariant start <= pos < |buf|
      invariant TokenEnd(buf, start, next) == TokenEnd(buf, pos, next)
      decreases |buf| - pos
    {
      if !IsTokenChar(buf[pos]) {
        return Bad;
      }
      pos := pos + 1;
      if pos == |buf| {
        return Partial;
      }
    }
    return Success(pos, Slice(start, pos - start));
  }

  /** ADVANCE_TOKEN. */
  method AdvanceToken(buf: seq<Byte>, start: nat, sse42: bool) returns (r: Parsed<Slice>)
    requires start <= |buf|
    ensures var e := PathEnd(buf, start);
      r == if e.Success? then Success(e.pos, Slice(start, e.pos - start)) else e.PropagateFailure()
  {
    var pos, found := FindCharFast(buf, start, PATH_RANGES, sse42);
    assert PathEnd(buf, start) == PathEnd(buf, pos) by {
      forall j | start <= j < pos ensures !IsControl(buf[j]) && buf[j] != SP {
        PathRangesExact(buf[j]);
      }
      PathEndSkips(buf, start, pos);
    }
    hide InRanges;
    if !found && pos == |buf| {
      return Partial;
    }
    while buf[pos] != SP
      invariant start <= pos < |buf|
      invariant PathEnd(buf, start) == PathEnd(buf, pos)
      decreases |buf| - pos
    {
      if !IsPrintableAscii(buf[pos]) {
        if buf[pos] < 32 || buf[pos] == DEL {
          return Bad;
        }
      }
      pos := pos + 1;
      if pos == |buf| {
        return Partial;
      }
    }
    return Success(pos, Slice(start, pos - start));
  }

  /** The scan of get_token_to_eol for a control, 16 or 8 bytes at a time and then one by one. */
  method FindControl(buf: seq<Byte>, start: nat, sse42: bool) returns (pos: nat, found: bool)
    requires start <= |buf|
    ensures pos <= |buf|
    ensures if found then ControlAt(buf, start) == Success(pos, ()) else ControlAt(buf, start) == Partial
  {
    pos, found := start, false;
    if sse42 {
      pos, found := FindCharFast(buf, start, TEXT_RANGES, true);
      forall j | start <= j < |buf| ensures InRanges(buf[j], TEXT_RANGES) <==> IsControl(buf[j]) && buf[j] != HT {
        TextRangesExact(buf[j]);
      }
      ControlAtSkips(buf, start, pos);
      if found {
        return;
      }
    } else {
      while |buf| - pos >= 8
        invariant start <= pos <= |buf|
        invariant ControlAt(buf, start) == ControlAt(buf, pos)
        decreases |buf| - pos
      {
        var k := 0;
        ghost var block := pos;
        while k < 8 && IsPrintableAscii(buf[pos])
          invariant 0 <= k <= 8 && pos == block + k && block + 8 <= |buf|
          invariant ControlAt(buf, start) == ControlAt(buf, pos)
        {
          pos, k := pos + 1, k + 1;
        }
        if k == 8 {
          continue;
        }
        if (buf[pos] < 32 && buf[pos] != HT) || buf[pos] == DEL {
          found := true;
          return;
        }
        pos := pos + 1;
      }
    }
    while pos < |buf|
      invariant start <= pos <= |buf| && !found
      invariant ControlAt(buf, start) == ControlAt(buf, pos)
    {
      if !IsPrintableAscii(buf[pos]) {
        if (buf[pos] < 32 && buf[pos] != HT) || buf[pos] == DEL {
          found := true;
          return;
        }
      }
      pos := pos + 1;
    }
  }

  method GetTokenToEol(buf: seq<Byte>, start: nat, sse42: bool) returns (r: Parsed<Slice>)
    requires start <= |buf|
    ensures r == TokenToEol(buf, start)
  {
    var pos, found := FindControl(buf, start, sse42);
    hide ControlAt;
    if !found {
      return Partial;
    }
    if buf[pos] == CR {
      if pos + 1 == |buf| {
        return Partial;
      }
      if buf[pos + 1] != LF {
        return Bad;
      }
      return Success(pos + 2, Slice(start, pos - start));
    } else if buf[pos] == LF {
      return Success(pos + 1, Slice(start, pos - start));
    } else {
      return Bad;
    }
  }

  /** is_complete: counts consecutive line ends from three bytes before `lastLen`. */
  method IsCompleteLoop(buf: seq<Byte>, lastLen: nat) returns (r: Parsed<()>)
    requires lastLen <= |buf|
    ensures r == IsComplete(buf, CompletenessStart(lastLen), 0)
  {
    var pos := if lastLen < 3 then 0 else lastLen - 3;
    var count := 0;
    while true
      invariant pos <= |buf| && 0 <= count < 2
      invariant IsComplete(buf, CompletenessStart(lastLen), 0) == IsComplete(buf, pos, count)
      decreases |buf| - pos
    {
      if pos == |buf| {
        return Partial;
      }
      if buf[pos] == CR {
        if pos + 1 == |buf| {
          return Partial;
        }
        if buf[pos + 1] != LF {
          return Bad;
        }
        pos, count := pos + 2, count + 1;
      } else if buf[pos] == LF {
        pos, count := pos + 1, count + 1;
      } else {
        pos, count := pos + 1, 0;
      }
      if count == 2 {
        return Success(pos, ());
      }
    }
  }

  /** Drops the blanks at the end of a header value. */
  method TrimRightLoop(buf: seq<Byte>, value: Slice) returns (r: Slice)
    requires value.start + value.len <= |buf|
    ensures r == TrimRight(buf, value)
  {
    var end := value.start + value.len;
    while end != value.start && IsBlank(buf[end - 1])
      invariant value.start <= end <= |buf|
      invariant TrimRight(buf, value) == TrimRight(buf, Slice(value.start, end - value.start))
    {
      end := end - 1;
    }
    r := Slice(value.start, end - value.start);
  }

  method ParseHeaderLoop(buf: seq<Byte>, start: nat, continues: bool, sse42: bool) returns (r: Parsed<Header>)
    requires start < |buf|
    ensures r == ParseHeader(buf, start, continues)
  {
    hide TokenEnd, ControlAt, TrimRight;
    var pos := start;
    var name: Option<Slice> := None;
    if !(continues && IsBlank(buf[pos])) {
      var token := ParseTokenLoop(buf, pos, COLON, sse42);
      if !token.Success? {
        return token.PropagateFailure();
      }
      if token.value.len == 0 {
        return Bad;
      }
      name := Some(token.value);
      pos := token.pos + 1;
      while pos < |buf| && IsBlank(buf[pos])
        invariant pos <= |buf|
        invariant AfterBlanks(buf, token.pos + 1) == AfterBlanks(buf, pos)
      {
        pos := pos + 1;
      }
      if pos == |buf| {
        return Partial;
      }
    }
    var line := GetTokenToEol(buf, pos, sse42);
    if !line.Success? {
      return line.PropagateFailure();
    }
    var value := TrimRightLoop(buf, line.value);
    return Success(line.pos, Header(name, value));
  }

  method ParseHeadersLoop(buf: seq<Byte>, start: nat, maxHeaders: nat, sse42: bool) returns (r: Parsed<seq<Header>>)
    requires start <= |buf|
    ensures r == ParseHeaders(buf, start, [], maxHeaders)
  {
    hide ParseHeader;
    var pos, headers := start, [];
    while true
      invariant pos <= |buf|
      invariant ParseHeaders(buf, start, [], maxHeaders) == ParseHeaders(buf, pos, headers, maxHeaders)
      decreases |buf| - pos
    {
      if pos == |buf| {
        return Partial;
      }
      if buf[pos] == CR {
        pos := pos + 1;
        if pos == |buf| {
          return Partial;
        }
        if buf[pos] != LF {
          return Bad;
        }
        return Success(pos + 1, headers);
      } else if buf[pos] == LF {
        return Success(pos + 1, headers);
      }
      if |headers| == maxHeaders {
        return Bad;
      }
      var header := ParseHeaderLoop(buf, pos, |headers| != 0, sse42);
      if !header.Success? {
        return header.PropagateFailure();
      }
      pos, headers := header.pos, headers + [header.value];
    }
  }

  /** `do { ++buf; CHECK_EOF(); } while (*buf == ' ')`. */
  method SkipSpaces(buf: seq<Byte>, start: nat) returns (r: Parsed<()>)
    requires start < |buf|
    ensures r == AfterSpaces(buf, start)
  {
    var pos := start + 1;
    while pos < |buf| && buf[pos] == SP
      invariant start < pos <= |buf|
      invariant AfterSpaces(buf, start) == AfterSpaces(buf, pos - 1)
    {
      pos := pos + 1;
    }
    return if pos == |buf| then Partial else Success(pos, ());
  }

  method ParseRequestLineLoop(buf: seq<Byte>, start: nat, sse42: bool) returns (r: Parsed<Request>)
    requires start <= |buf|
    ensures r == ParseRequestLine(buf, start)
  {
    hide TokenEnd, PathEnd, AfterSpaces;
    var httpMethod := ParseTokenLoop(buf, start, SP, sse42);
    if !httpMethod.Success? {
      return httpMethod.PropagateFailure();
    }
    var gap := SkipSpaces(buf, httpMethod.pos);
    if !gap.Success? {
      return gap.PropagateFailure();
    }
    var path := AdvanceToken(buf, gap.pos, sse42);
    if !path.Success? {
      return path.PropagateFailure();
    }
    gap := SkipSpaces(buf, path.pos);
    if !gap.Success? {
      return gap.PropagateFailure();
    }
    if httpMethod.value.len == 0 || path.value.len == 0 {
      return Bad;
    }
    var version := ParseHttpVersion(buf, gap.pos);
    if !version.Success? {
      return version.PropagateFailure();
    }
    var pos := version.pos;
    if buf[pos] == CR {
      pos := pos + 1;
      if pos == |buf| {
        return Partial;
      }
      if buf[pos] != LF {
        return Bad;
      }
    } else if buf[pos] != LF {
      return Bad;
    }
    return Success(pos + 1, Request(httpMethod.value, path.value, version.value, []));
  }

  method ParseRequestLoop(buf: seq<Byte>, maxHeaders: nat, sse42: bool) returns (r: Parsed<Request>)
    ensures r == ParseRequest(buf, maxHeaders)
  {
    hide ParseRequestLine, ParseHeaders;
    var pos := 0;
    if pos == |buf| {
      return Partial;
    }
    if buf[pos] == CR {
      pos := pos + 1;
      if pos == |buf| {
        return Partial;
      }
      if buf[pos] != LF {
        return Bad;
      }
      pos := pos + 1;
    } else if buf[pos] == LF {
      pos := pos + 1;
    }
    var line := ParseRequestLineLoop(buf, pos, sse42);
    if !line.Success? {
      return line;
    }
    var headers := ParseHeadersLoop(buf, line.pos, maxHeaders, sse42);
    if !headers.Success? {
      return headers.PropagateFailure();
    }
    return Success(headers.pos, line.value.(headers := headers.value));
  }

  /** phr_parse_request: the bytes consumed, -1 or -2; both builds give the answer of RequestSpec.PhrParseRequest. */
  method PhrParse(buf: seq<Byte>, maxHeaders: nat, lastLen: nat, sse42: bool)
    returns (ret: int, request: Option<Request>)
    requires lastLen <= |buf|
    ensures match PhrParseRequest(buf, maxHeaders, lastLen)
      case Success(n, r) => ret == n && request == Some(r)
      case Bad => ret == -1 && request == None
      case Partial => ret == -2 && request == None
  {
    hide IsComplete, ParseRequest;
    if lastLen != 0 {
      var complete := IsCompleteLoop(buf, lastLen);
      if !complete.Success? {
        return if complete.Bad? then -1 else -2, None;
      }
    }
    var r := ParseRequestLoop(buf, maxHeaders, sse42);
    if r.Success? {
      return r.pos, Some(r.value);
    }
    return if r.Bad? then -1 else -2, None;
  }
}
