/** What the request parser computes: each parsing step as a function of a buffer and a position in it.
    A step succeeds, rejects the input, or reports that the buffer ends too early. */
module RequestSpec {
  import opened Wrappers
  import opened Bytes

  /** The outcome of a step: the position behind what it read and what it found, -1, or -2. */
  datatype Parsed<+T> = Success(pos: nat, value: T) | Bad | Partial {
    predicate IsFailure() {
      !Success?
    }

    function PropagateFailure<U>(): Parsed<U>
      requires !Success?
    {
      if Bad? then Bad else Partial
    }

    function Extract(): (nat, T)
      requires Success?
    {
      (pos, value)
    }
  }

  /** A part of the buffer, as the source's pointer and length. */
  datatype Slice = Slice(start: nat, len: nat)

  /** A header; a line that continues the previous header has no name. */
  datatype Header = Header(name: Option<Slice>, value: Slice)

  datatype Request = Request(httpMethod: Slice, path: Slice, minorVersion: nat, headers: seq<Header>)

  // ---------- Character classes ----------

  predicate IsPrintableAscii(b: Byte) {
    32 <= b < 127
  }

  /** The bytes at which a header value or a path must stop: controls and DEL. */
  predicate IsControl(b: Byte) {
    b < 32 || b == DEL
  }

  predicate IsBlank(b: Byte) {
    b == SP || b == HT
  }

  predicate IsDigit(b: Byte) {
    '0' as int <= b <= '9' as int
  }

  /** The parser's table of 256 entries: rows for the byte values below 128, all 0 from there on. */
  const TOKEN_CHAR_MAP: seq<string> := [
    "00000000000000000000000000000000",
    "01011111001101101111111111000000",
    "01111111111111111111111111100011",
    "11111111111111111111111111101010"
  ]

  predicate IsTokenChar(b: Byte) {
    b < 128 && TOKEN_CHAR_MAP[b / 32][b % 32] == '1'
  }

  // ---------- Steps ----------

  /** From `i` on, token characters up to `next`. */
  function TokenEnd(s: seq<Byte>, i: nat, next: Byte): (r: Parsed<()>)
    requires i <= |s|
    ensures r.Success? ==> i <= r.pos < |s| && s[r.pos] == next
    decreases |s| - i
  {
    if i == |s| then Partial
    else if s[i] == next then Success(i, ())
    else if !IsTokenChar(s[i]) then Bad
    else TokenEnd(s, i + 1, next)
  }

  function ParseToken(s: seq<Byte>, i: nat, next: Byte): (r: Parsed<Slice>)
    requires i <= |s|
    ensures r.Success? ==> i <= r.pos < |s| && s[r.pos] == next
  {
    var (e, _) :- TokenEnd(s, i, next);
    Success(e, Slice(i, e - i))
  }

  /** From `i` on, anything but controls up to a space. */
  function PathEnd(s: seq<Byte>, i: nat): (r: Parsed<()>)
    requires i <= |s|
    ensures r.Success? ==> i <= r.pos < |s| && s[r.pos] == SP
    decreases |s| - i
  {
    if i == |s| then Partial
    else if s[i] == SP then Success(i, ())
    else if IsControl(s[i]) then Bad
    else PathEnd(s, i + 1)
  }

  /** Past the byte at `i` and the spaces behind it. */
  function AfterSpaces(s: seq<Byte>, i: nat): (r: Parsed<()>)
    requires i < |s|
    ensures r.Success? ==> i < r.pos < |s| && s[r.pos] != SP
    decreases |s| - i
  {
    if i + 1 == |s| then Partial
    else if s[i + 1] == SP then AfterSpaces(s, i + 1)
    else Success(i + 1, ())
  }

  /** Past spaces and tabs. */
  function AfterBlanks(s: seq<Byte>, i: nat): (r: Parsed<()>)
    requires i <= |s|
    ensures r.Success? ==> i <= r.pos < |s| && !IsBlank(s[r.pos])
    decreases |s| - i
  {
    if i == |s| then Partial
    else if IsBlank(s[i]) then AfterBlanks(s, i + 1)
    else Success(i, ())
  }

  /** The first control other than a tab. */
  function ControlAt(s: seq<Byte>, i: nat): (r: Parsed<()>)
    requires i <= |s|
    ensures r.Success? ==> i <= r.pos < |s| && IsControl(s[r.pos]) && s[r.pos] != HT
    ensures !r.Bad?
    decreases |s| - i
  {
    if i == |s| then Partial
    else if IsControl(s[i]) && s[i] != HT then Success(i, ())
    else ControlAt(s, i + 1)
  }

  /** A line end, CR LF or LF alone, at `i`. */
  function LineEnd(s: seq<Byte>, i: nat): (r: Parsed<()>)
    requires i < |s|
    ensures r.Success? ==> i < r.pos <= |s| && s[r.pos - 1] == LF && (r.pos == i + 1 || (r.pos == i + 2 && s[i] == CR))
  {
    if s[i] == CR then
      if i + 1 == |s| then Partial else if s[i + 1] == LF then Success(i + 2, ()) else Bad
    else if s[i] == LF then Success(i + 1, ())
    else Bad
  }

  /** The rest of the line from `i` on, and the line end behind it. */
  function TokenToEol(s: seq<Byte>, i: nat): (r: Parsed<Slice>)
    requires i <= |s|
    ensures r.Success? ==> i < r.pos <= |s| && s[r.pos - 1] == LF && r.value.start == i && i + r.value.len < r.pos
  {
    var (e, _) :- ControlAt(s, i);
    var (n, _) :- LineEnd(s, e);
    Success(n, Slice(i, e - i))
  }

  /** The blank line, or the first byte of a line that is not blank. */
  function BlankLine(s: seq<Byte>, i: nat): (r: Parsed<bool>)
    requires i <= |s|
    ensures r.Success? ==>
      && r.pos <= |s|
      && if r.value then i < r.pos && LineEnd(s, i).Success? && LineEnd(s, i).pos == r.pos
         else r.pos == i < |s| && s[i] != CR && s[i] != LF
  {
    if i == |s| then Partial
    else if s[i] == CR || s[i] == LF then
      var (n, _) :- LineEnd(s, i);
      Success(n, true)
    else Success(i, false)
  }

  function ParseHttpVersion(s: seq<Byte>, i: nat): (r: Parsed<nat>)
    requires i <= |s|
    ensures r.Success? ==> r.pos == i + 8 < |s| && r.value < 10
  {
    if |s| - i < 9 then Partial
    else if s[i] == 'H' as int && s[i + 1] == 'T' as int && s[i + 2] == 'T' as int && s[i + 3] == 'P' as int
         && s[i + 4] == '/' as int && s[i + 5] == '1' as int && s[i + 6] == '.' as int && IsDigit(s[i + 7])
    then Success(i + 8, s[i + 7] - '0' as int)
    else Bad
  }

  /** `slice` without the blanks at its end. */
  function TrimRight(s: seq<Byte>, slice: Slice): (r: Slice)
    requires slice.start + slice.len <= |s|
    ensures r.start == slice.start && r.len <= slice.len
    ensures r.len > 0 ==> !IsBlank(s[r.start + r.len - 1])
    ensures forall k :: r.start + r.len <= k < slice.start + slice.len ==> IsBlank(s[k])
    decreases slice.len
  {
    if slice.len > 0 && IsBlank(s[slice.start + slice.len - 1])
    then TrimRight(s, slice.(len := slice.len - 1)) else slice
  }

  /** `name: value`, with no blanks before the colon and any number behind it. */
  function ParseNamedHeader(s: seq<Byte>, i: nat): (r: Parsed<Header>)
    requires i < |s|
    ensures r.Success? ==> i < r.pos <= |s| && s[r.pos - 1] == LF
  {
    var (e, name) :- ParseToken(s, i, COLON);
    if name.len == 0 then Bad
    else
      var (v, _) :- AfterBlanks(s, e + 1);
      var (n, value) :- TokenToEol(s, v);
      Success(n, Header(Some(name), TrimRight(s, value)))
  }

  /** A header line that is not blank; `continues` if a line before it may be continued. */
  function ParseHeader(s: seq<Byte>, i: nat, continues: bool): (r: Parsed<Header>)
    requires i < |s|
    ensures r.Success? ==> i < r.pos <= |s| && s[r.pos - 1] == LF
  {
    if continues && IsBlank(s[i]) then
      var (n, value) :- TokenToEol(s, i);
      Success(n, Header(None, TrimRight(s, value)))
    else ParseNamedHeader(s, i)
  }

  /** Header lines up to and including the blank line; `acc` are those already read, at most `max` are taken. */
  function ParseHeaders(s: seq<Byte>, i: nat, acc: seq<Header>, max: nat): (r: Parsed<seq<Header>>)
    requires i <= |s|
    ensures r.Success? ==> i < r.pos <= |s| && acc <= r.value
    decreases |s| - i
  {
    var (n, blank) :- BlankLine(s, i);
    if blank then Success(n, acc)
    else if |acc| == max then Bad
    else
      var (j, h) :- ParseHeader(s, i, |acc| != 0);
      ParseHeaders(s, j, acc + [h], max)
  }

  /** The request line, from its method to its line end. */
  function ParseRequestLine(s: seq<Byte>, i: nat): (r: Parsed<Request>)
    requires i <= |s|
    ensures r.Success? ==> i < r.pos <= |s| && s[r.pos - 1] == LF && r.value.headers == []
  {
    var (methodEnd, httpMethod) :- ParseToken(s, i, SP);
    var (pathStart, _) :- AfterSpaces(s, methodEnd);
    var (pathEnd, _) :- PathEnd(s, pathStart);
    var (versionStart, _) :- AfterSpaces(s, pathEnd);
    if httpMethod.len == 0 || pathEnd == pathStart then Bad
    else
      var (versionEnd, minor) :- ParseHttpVersion(s, versionStart);
      var (n, _) :- LineEnd(s, versionEnd);
      Success(n, Request(httpMethod, Slice(pathStart, pathEnd - pathStart), minor, []))
  }

  /** A whole request, behind at most one empty line. */
  function ParseRequest(s: seq<Byte>, max: nat): (r: Parsed<Request>)
    ensures r.Success? ==> 0 < r.pos <= |s|
  {
    var (i, _) :- BlankLine(s, 0);
    var (j, line) :- ParseRequestLine(s, i);
    var (n, headers) :- ParseHeaders(s, j, [], max);
    Success(n, line.(headers := headers))
  }

  /** Whether two consecutive line ends are seen from `i` on, the last `count` lines having been empty. */
  function IsComplete(s: seq<Byte>, i: nat, count: nat): Parsed<()>
    requires i <= |s|
    decreases |s| - i
  {
    if i == |s| then Partial
    else if s[i] == CR then
      if i + 1 == |s| then Partial
      else if s[i + 1] != LF then Bad
      else if count + 1 == 2 then Success(i + 2, ()) else IsComplete(s, i + 2, count + 1)
    else if s[i] == LF then
      if count + 1 == 2 then Success(i + 1, ()) else IsComplete(s, i + 1, count + 1)
    else IsComplete(s, i + 1, 0)
  }

  /** Three bytes before the point up to which a previous call has seen the input. */
  function CompletenessStart(lastLen: nat): nat {
    if lastLen < 3 then 0 else lastLen - 3
  }

  /** The entry point: with `lastLen` not 0, input without a blank line behind `lastLen` is not parsed at all. */
  function PhrParseRequest(s: seq<Byte>, max: nat, lastLen: nat): Parsed<Request>
    requires lastLen <= |s|
  {
    if lastLen != 0 && IsComplete(s, CompletenessStart(lastLen), 0).IsFailure()
    then IsComplete(s, CompletenessStart(lastLen), 0).PropagateFailure()
    else ParseRequest(s, max)
  }
}
