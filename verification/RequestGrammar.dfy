/** Requests described without the parser, as runs of bytes between positions, and the theorem that the parser
    succeeds on exactly those. */
module RequestGrammar {
  import Abnf
  import opened Wrappers
  import opened Bytes
  import opened RequestSpec
  import opened RequestStability

  // ---------- The grammar ----------

  ghost predicate TokenRun(s: seq<Byte>, i: nat, e: nat) {
    i <= e <= |s| && forall j :: i <= j < e ==> Abnf.IsTchar(s[j])
  }

  ghost predicate PathRun(s: seq<Byte>, i: nat, e: nat) {
    i <= e <= |s| && forall j :: i <= j < e ==> !Abnf.IsCtl(s[j]) && s[j] != Abnf.SP
  }

  ghost predicate SpaceRun(s: seq<Byte>, i: nat, e: nat) {
    i <= e <= |s| && forall j :: i <= j < e ==> s[j] == Abnf.SP
  }

  ghost predicate BlankRun(s: seq<Byte>, i: nat, e: nat) {
    i <= e <= |s| && forall j :: i <= j < e ==> Abnf.IsWsp(s[j])
  }

  ghost predicate TextRun(s: seq<Byte>, i: nat, e: nat) {
    i <= e <= |s| && forall j :: i <= j < e ==> Abnf.IsCtl(s[j]) ==> s[j] == Abnf.HTAB
  }

  /** CR LF or LF alone. */
  ghost predicate IsLineEnd(s: seq<Byte>, i: nat, n: nat) {
    i < n <= |s| && s[n - 1] == Abnf.LF && (n == i + 1 || (n == i + 2 && s[i] == Abnf.CR))
  }

  /** From `i` to the line end: the value, which ends in no blank, and blanks up to `q`. */
  ghost predicate ValueUpTo(s: seq<Byte>, i: nat, q: nat, n: nat, v: Slice) {
    && v.start == i && v.start + v.len <= q
    && TextRun(s, i, q) && IsLineEnd(s, q, n)
    && BlankRun(s, v.start + v.len, q)
    && (v.len > 0 ==> !Abnf.IsWsp(s[v.start + v.len - 1]))
  }

  ghost predicate IsValueLine(s: seq<Byte>, i: nat, n: nat, v: Slice) {
    exists q :: ValueUpTo(s, i, q, n, v)
  }

  ghost predicate IsNamedHeader(s: seq<Byte>, i: nat, n: nat, h: Header) {
    && h.name.Some? && h.name.value.start == i && h.name.value.len > 0
    && var e := i + h.name.value.len;
    && TokenRun(s, i, e) && e < |s| && s[e] == Abnf.COLON
    && e < h.value.start < |s| && BlankRun(s, e + 1, h.value.start) && !Abnf.IsWsp(s[h.value.start])
    && IsValueLine(s, h.value.start, n, h.value)
  }

  /** A line that starts with a blank continues the header before it. */
  ghost predicate IsFoldedLine(s: seq<Byte>, i: nat, n: nat, h: Header) {
    h.name.None? && i < |s| && Abnf.IsWsp(s[i]) && IsValueLine(s, i, n, h.value)
  }

  ghost predicate IsHeaderLine(s: seq<Byte>, i: nat, n: nat, h: Header, continues: bool) {
    IsNamedHeader(s, i, n, h) || (continues && IsFoldedLine(s, i, n, h))
  }

  /** The header lines `hs` and the blank line behind them. */
  ghost predicate AreHeaders(s: seq<Byte>, i: nat, n: nat, hs: seq<Header>, continues: bool)
    decreases |hs|
  {
    if |hs| == 0 then IsLineEnd(s, i, n)
    else exists j :: IsHeaderLine(s, i, j, hs[0], continues) && AreHeaders(s, j, n, hs[1..], true)
  }

  ghost predicate IsVersion(s: seq<Byte>, i: nat, minor: nat) {
    && i + 8 < |s| && minor < 10
    && s[i] == 'H' as int && s[i + 1] == 'T' as int && s[i + 2] == 'T' as int && s[i + 3] == 'P' as int
    && s[i + 4] == '/' as int && s[i + 5] == '1' as int && s[i + 6] == '.' as int && s[i + 7] == '0' as int + minor
  }

  /** Method, path and version, with one or more spaces between them; `v` is where the version starts. */
  ghost predicate RequestLineAt(s: seq<Byte>, i: nat, v: nat, n: nat, r: Request) {
    var m, p := r.httpMethod, r.path;
    && m.start == i && m.len > 0 && TokenRun(s, i, i + m.len)
    && i + m.len < p.start && SpaceRun(s, i + m.len, p.start)
    && p.len > 0 && PathRun(s, p.start, p.start + p.len)
    && p.start + p.len < v && SpaceRun(s, p.start + p.len, v)
    && IsVersion(s, v, r.minorVersion) && IsLineEnd(s, v + 8, n)
  }

  ghost predicate IsRequestLine(s: seq<Byte>, i: nat, n: nat, r: Request) {
    exists v :: RequestLineAt(s, i, v, n, r)
  }

  /** A request whose line starts at `i`, behind at most one empty line, and ends at `j`. */
  ghost predicate RequestAt(s: seq<Byte>, i: nat, j: nat, n: nat, r: Request) {
    (i == 0 || IsLineEnd(s, 0, i)) && IsRequestLine(s, i, j, r) && AreHeaders(s, j, n, r.headers, false)
  }

  /** `s[..n]` is the request `r`, with at most `max` header lines. */
  ghost predicate IsRequest(s: seq<Byte>, n: nat, r: Request, max: nat) {
    |r.headers| <= max && exists i, j :: RequestAt(s, i, j, n, r)
  }

  // ---------- The character table ----------

  lemma TableRow0(b: Byte)
    requires b < 32
    ensures TOKEN_CHAR_MAP[0][b] == '1' <==> Abnf.IsTchar(b)
  {
  }

  lemma TableRow1(b: Byte)
    requires 32 <= b < 64
    ensures TOKEN_CHAR_MAP[1][b - 32] == '1' <==> Abnf.IsTchar(b)
  {
  }

  lemma TableRow2(b: Byte)
    requires 64 <= b < 96
    ensures TOKEN_CHAR_MAP[2][b - 64] == '1' <==> Abnf.IsTchar(b)
  {
  }

  lemma TableRow3(b: Byte)
    requires 96 <= b < 128
    ensures TOKEN_CHAR_MAP[3][b - 96] == '1' <==> Abnf.IsTchar(b)
  {
  }

  /** The parser's table is the token alphabet of section 3.2.6 of RFC 7230. */
  lemma TokenTableIsTchar(b: Byte)
    ensures IsTokenChar(b) <==> Abnf.IsTchar(b)
  {
    if b < 128 {
      TableRow(b);
    }
  }

  lemma TableRow(b: Byte)
    requires b < 128
    ensures TOKEN_CHAR_MAP[b / 32][b % 32] == '1' <==> Abnf.IsTchar(b)
  {
    hide Abnf.IsTchar, TOKEN_CHAR_MAP;
    if b < 32 {
      TableRow0(b);
    } else if b < 64 {
      TableRow1(b);
    } else if b < 96 {
      TableRow2(b);
    } else {
      TableRow3(b);
    }
  }

  /** The parser's classes of bytes are those of the grammar. */
  lemma ClassesAgree(b: Byte)
    ensures IsBlank(b) <==> Abnf.IsWsp(b)
    ensures IsControl(b) <==> Abnf.IsCtl(b)
    ensures IsDigit(b) <==> Abnf.IsDigit(b)
    ensures LF == Abnf.LF && CR == Abnf.CR && SP == Abnf.SP && HT == Abnf.HTAB && COLON == Abnf.COLON
  {
  }

  lemma DelimitersAreNoTchars()
    ensures !Abnf.IsTchar(Abnf.COLON) && !Abnf.IsTchar(Abnf.SP) && !Abnf.IsTchar(Abnf.HTAB)
    ensures !Abnf.IsTchar(Abnf.CR) && !Abnf.IsTchar(Abnf.LF)
  {
  }

  ghost predicate EndsAt(r: Parsed<()>, e: nat) {
    r.Success? && r.pos == e
  }

  // ---------- Each scan, exactly ----------

  lemma {:induction false} TokenEndExact(s: seq<Byte>, i: nat, next: Byte, e: nat)
    requires i <= |s| && !Abnf.IsTchar(next)
    ensures EndsAt(TokenEnd(s, i, next), e) <==> TokenRun(s, i, e) && e < |s| && s[e] == next
    decreases |s| - i
  {
    if i < |s| {
      hide Abnf.IsTchar, IsTokenChar;
      TokenTableIsTchar(s[i]);
      TokenEndExact(s, i + 1, next, e);
    }
  }

  lemma {:induction false} PathEndExact(s: seq<Byte>, i: nat, e: nat)
    requires i <= |s|
    ensures EndsAt(PathEnd(s, i), e) <==> PathRun(s, i, e) && e < |s| && s[e] == Abnf.SP
    decreases |s| - i
  {
    if i < |s| {
      PathEndExact(s, i + 1, e);
    }
  }

  lemma {:induction false} AfterSpacesExact(s: seq<Byte>, i: nat, e: nat)
    requires i < |s| && s[i] == Abnf.SP
    ensures EndsAt(AfterSpaces(s, i), e) <==> i < e < |s| && SpaceRun(s, i, e) && s[e] != Abnf.SP
    decreases |s| - i
  {
    if i + 1 < |s| && s[i + 1] == Abnf.SP {
      AfterSpacesExact(s, i + 1, e);
    }
  }

  lemma {:induction false} AfterBlanksExact(s: seq<Byte>, i: nat, e: nat)
    requires i <= |s|
    ensures EndsAt(AfterBlanks(s, i), e) <==> BlankRun(s, i, e) && e < |s| && !Abnf.IsWsp(s[e])
    decreases |s| - i
  {
    if i < |s| {
      AfterBlanksExact(s, i + 1, e);
    }
  }

  lemma {:induction false} ControlAtExact(s: seq<Byte>, i: nat, e: nat)
    requires i <= |s|
    ensures EndsAt(ControlAt(s, i), e) <==> TextRun(s, i, e) && e < |s| && Abnf.IsCtl(s[e]) && s[e] != Abnf.HTAB
    decreases |s| - i
  {
    if i < |s| {
      ControlAtExact(s, i + 1, e);
    }
  }

  lemma LineEndExact(s: seq<Byte>, i: nat, n: nat)
    requires i < |s|
    ensures EndsAt(LineEnd(s, i), n) <==> IsLineEnd(s, i, n)
  {
  }

  lemma {:induction false} TrimRightExact(s: seq<Byte>, v: Slice, t: Slice)
    requires v.start + v.len <= |s|
    ensures TrimRight(s, v) == t <==>
      && t.start == v.start && t.len <= v.len && BlankRun(s, t.start + t.len, v.start + v.len)
      && (t.len > 0 ==> !Abnf.IsWsp(s[t.start + t.len - 1]))
    decreases v.len
  {
    if v.len > 0 && Abnf.IsWsp(s[v.start + v.len - 1]) {
      TrimRightExact(s, v.(len := v.len - 1), t);
    }
  }

  /** What a header line's value is read to be. */
  function ParseValue(s: seq<Byte>, i: nat): Parsed<Slice>
    requires i <= |s|
  {
    var (n, v) :- TokenToEol(s, i);
    Success(n, TrimRight(s, v))
  }

  lemma ValueExact(s: seq<Byte>, i: nat, n: nat, v: Slice)
    requires i <= |s|
    ensures ParseValue(s, i) == Success(n, v) <==> IsValueLine(s, i, n, v)
  {
    hide ControlAt, TrimRight, LineEnd, IsControl, Abnf.IsCtl, IsLineEnd;
    var c := ControlAt(s, i);
    if c.Success? {
      ControlAtExact(s, i, c.pos);
      LineEndExact(s, c.pos, n);
      TrimRightExact(s, Slice(i, c.pos - i), v);
      if ParseValue(s, i) == Success(n, v) {
        assert ValueUpTo(s, i, c.pos, n, v);
      }
    }
    if q: nat :| ValueUpTo(s, i, q, n, v) {
      assert q < |s| && Abnf.IsCtl(s[q]) && s[q] != Abnf.HTAB by {
        LineEndIsControl(s, q, n);
      }
      ControlAtExact(s, i, q);
      LineEndExact(s, q, n);
      TrimRightExact(s, Slice(i, q - i), v);
    }
  }

  lemma LineEndIsControl(s: seq<Byte>, i: nat, n: nat)
    requires IsLineEnd(s, i, n)
    ensures i < |s| && Abnf.IsCtl(s[i]) && s[i] != Abnf.HTAB
  {
  }

  lemma NamedHeaderExact(s: seq<Byte>, i: nat, n: nat, h: Header)
    requires i < |s|
    ensures ParseNamedHeader(s, i) == Success(n, h) <==> IsNamedHeader(s, i, n, h)
  {
    if ParseNamedHeader(s, i) == Success(n, h) {
      NamedHeaderReadIsOne(s, i, n, h);
    }
    hide ParseNamedHeader;
    if IsNamedHeader(s, i, n, h) {
      NamedHeaderIsRead(s, i, n, h);
    }
  }

  lemma NamedHeaderReadIsOne(s: seq<Byte>, i: nat, n: nat, h: Header)
    requires i < |s| && ParseNamedHeader(s, i) == Success(n, h)
    ensures IsNamedHeader(s, i, n, h)
  {
    DelimitersAreNoTchars();
    hide TokenEnd, AfterBlanks, TokenToEol, TrimRight, IsValueLine, Abnf.IsTchar, IsBlank, Abnf.IsWsp;
    var e := TokenEnd(s, i, Abnf.COLON);
    TokenEndExact(s, i, Abnf.COLON, e.pos);
    var b := AfterBlanks(s, e.pos + 1);
    AfterBlanksExact(s, e.pos + 1, b.pos);
    ValueExact(s, b.pos, n, h.value);
  }

  lemma NamedHeaderIsRead(s: seq<Byte>, i: nat, n: nat, h: Header)
    requires i < |s| && IsNamedHeader(s, i, n, h)
    ensures ParseNamedHeader(s, i) == Success(n, h)
  {
    DelimitersAreNoTchars();
    hide TokenEnd, AfterBlanks, TokenToEol, TrimRight, IsValueLine, Abnf.IsTchar, IsBlank, Abnf.IsWsp;
    TokenEndExact(s, i, Abnf.COLON, i + h.name.value.len);
    AfterBlanksExact(s, i + h.name.value.len + 1, h.value.start);
    ValueExact(s, h.value.start, n, h.value);
  }

  lemma HeaderLineExact(s: seq<Byte>, i: nat, n: nat, h: Header, continues: bool)
    requires i < |s|
    ensures var r := ParseHeader(s, i, continues);
      r == Success(n, h) <==> IsHeaderLine(s, i, n, h, continues)
  {
    hide ParseNamedHeader, TokenToEol, TrimRight, IsValueLine;
    NamedHeaderExact(s, i, n, h);
    ValueExact(s, i, n, h.value);
    if IsNamedHeader(s, i, n, h) {
      DelimitersAreNoTchars();
      assert Abnf.IsTchar(s[i]) && !Abnf.IsWsp(s[i]);
    }
  }

  /** A header line does not start like the blank line. */
  lemma HeaderLineIsNotBlank(s: seq<Byte>, i: nat, n: nat, h: Header, continues: bool)
    requires IsHeaderLine(s, i, n, h, continues)
    ensures i < |s| && s[i] != Abnf.CR && s[i] != Abnf.LF
  {
    DelimitersAreNoTchars();
    hide Abnf.IsTchar, IsValueLine;
  }

  /** The first of a list of header lines, and where it ends. */
  lemma FirstHeader(s: seq<Byte>, i: nat, n: nat, hs: seq<Header>, continues: bool) returns (j: nat)
    requires |hs| > 0 && AreHeaders(s, i, n, hs, continues)
    ensures IsHeaderLine(s, i, j, hs[0], continues) && AreHeaders(s, j, n, hs[1..], true)
  {
    hide IsHeaderLine;
    j :| IsHeaderLine(s, i, j, hs[0], continues) && AreHeaders(s, j, n, hs[1..], true);
  }

  lemma {:induction false} HeadersExact(s: seq<Byte>, i: nat, n: nat, acc: seq<Header>, hs: seq<Header>, max: nat)
    requires i <= |s| && |acc| <= max
    ensures ParseHeaders(s, i, acc, max) == Success(n, acc + hs)
       <==> AreHeaders(s, i, n, hs, |acc| != 0) && |acc| + |hs| <= max
    decreases |s| - i
  {
    hide ParseHeader, IsHeaderLine;
    var blank := BlankLine(s, i);
    assert acc + [] == acc;
    if i == |s| || !(blank.Success? && !blank.value) {
      if i < |s| {
        LineEndExact(s, i, n);
      }
      assert |hs| > 0 ==> !AreHeaders(s, i, n, hs, |acc| != 0) by {
        if |hs| > 0 && AreHeaders(s, i, n, hs, |acc| != 0) {
          var j := FirstHeader(s, i, n, hs, |acc| != 0);
          HeaderLineIsNotBlank(s, i, j, hs[0], |acc| != 0);
        }
      }
    } else if |acc| == max {
      assert |hs| == 0 ==> !AreHeaders(s, i, n, hs, |acc| != 0);
    } else {
      MoreHeadersExact(s, i, n, acc, hs, max);
    }
  }

  lemma MoreHeadersExact(s: seq<Byte>, i: nat, n: nat, acc: seq<Header>, hs: seq<Header>, max: nat)
    requires i < |s| && |acc| < max && s[i] != Abnf.CR && s[i] != Abnf.LF
    ensures ParseHeaders(s, i, acc, max) == Success(n, acc + hs)
       <==> AreHeaders(s, i, n, hs, |acc| != 0) && |acc| + |hs| <= max
    decreases |s| - i, 0
  {
    hide ParseHeader, IsHeaderLine;
    var r := ParseHeader(s, i, |acc| != 0);
    if r.Success? {
      HeaderLineExact(s, i, r.pos, r.value, |acc| != 0);
      if |hs| > 0 && hs[0] == r.value {
        HeadersExact(s, r.pos, n, acc + [r.value], hs[1..], max);
        assert acc + [r.value] + hs[1..] == acc + hs;
      }
      if ParseHeaders(s, i, acc, max) == Success(n, acc + hs) {
        assert acc + [r.value] <= acc + hs;
        assert (acc + hs)[|acc|] == r.value;
      }
    }
    if |hs| > 0 && AreHeaders(s, i, n, hs, |acc| != 0) {
      var j := FirstHeader(s, i, n, hs, |acc| != 0);
      HeaderLineExact(s, i, j, hs[0], |acc| != 0);
    }
  }

  lemma VersionExact(s: seq<Byte>, i: nat, minor: nat)
    requires i <= |s|
    ensures ParseHttpVersion(s, i) == Success(i + 8, minor) <==> IsVersion(s, i, minor)
  {
  }

  lemma RequestLineIsRead(s: seq<Byte>, i: nat, v: nat, n: nat, r: Request)
    requires RequestLineAt(s, i, v, n, r)
    ensures ParseRequestLine(s, i) == Success(n, r.(headers := []))
  {
    DelimitersAreNoTchars();
    hide TokenEnd, PathEnd, AfterSpaces, Abnf.IsTchar, ParseHttpVersion;
    var m, p := r.httpMethod, r.path;
    assert s[i + m.len] == Abnf.SP && s[p.start + p.len] == Abnf.SP;
    TokenEndExact(s, i, Abnf.SP, i + m.len);
    AfterSpacesExact(s, i + m.len, p.start);
    PathEndExact(s, p.start, p.start + p.len);
    AfterSpacesExact(s, p.start + p.len, v);
    VersionExact(s, v, r.minorVersion);
    LineEndExact(s, v + 8, n);
  }

  lemma RequestLineReadIsOne(s: seq<Byte>, i: nat, n: nat, r: Request)
    requires i <= |s| && ParseRequestLine(s, i) == Success(n, r)
    ensures IsRequestLine(s, i, n, r)
  {
    DelimitersAreNoTchars();
    hide TokenEnd, PathEnd, AfterSpaces, Abnf.IsTchar, ParseHttpVersion;
    var m, p := r.httpMethod, r.path;
    TokenEndExact(s, i, Abnf.SP, i + m.len);
    AfterSpacesExact(s, i + m.len, p.start);
    PathEndExact(s, p.start, p.start + p.len);
    var v := AfterSpaces(s, p.start + p.len).pos;
    AfterSpacesExact(s, p.start + p.len, v);
    VersionExact(s, v, r.minorVersion);
    LineEndExact(s, v + 8, n);
    assert RequestLineAt(s, i, v, n, r);
  }

  lemma RequestLineExact(s: seq<Byte>, i: nat, n: nat, r: Request)
    requires i <= |s| && r.headers == []
    ensures ParseRequestLine(s, i) == Success(n, r) <==> IsRequestLine(s, i, n, r)
  {
    hide ParseRequestLine, RequestLineAt;
    if ParseRequestLine(s, i) == Success(n, r) {
      RequestLineReadIsOne(s, i, n, r);
    }
    if v: nat :| RequestLineAt(s, i, v, n, r) {
      RequestLineIsRead(s, i, v, n, r);
    }
  }

  /** The parser succeeds on exactly the requests of the grammar, and reports their slices and their length. */
  lemma ParsesExactlyRequests(s: seq<Byte>, n: nat, r: Request, max: nat)
    ensures ParseRequest(s, max) == Success(n, r) <==> IsRequest(s, n, r, max)
  {
    if ParseRequest(s, max) == Success(n, r) {
      ParsedIsRequest(s, n, r, max);
    }
    hide ParseRequest;
    if IsRequest(s, n, r, max) {
      RequestIsParsed(s, n, r, max);
    }
  }

  /** What is rejected is rejected for good: whatever follows, it does not begin with a request. */
  lemma RejectedForGood(s: seq<Byte>, more: seq<Byte>, n: nat, r: Request, max: nat)
    requires ParseRequest(s, max) == Bad
    ensures !IsRequest(s + more, n, r, max)
  {
    hide ParseRequest, IsRequest;
    VerdictStability(s, more, max);
    ParsesExactlyRequests(s + more, n, r, max);
  }

  lemma ParsedIsRequest(s: seq<Byte>, n: nat, r: Request, max: nat)
    requires ParseRequest(s, max) == Success(n, r)
    ensures IsRequest(s, n, r, max)
  {
    hide ParseRequestLine, ParseHeaders, IsRequestLine, AreHeaders, LineEnd;
    var first := BlankLine(s, 0);
    var i := first.pos;
    if first.value {
      LineEndExact(s, 0, i);
    }
    var line := ParseRequestLine(s, i);
    RequestLineExact(s, i, line.pos, line.value);
    assert IsRequestLine(s, i, line.pos, r) by {
      SameLine(s, i, line.pos, line.value, r);
    }
    assert [] + r.headers == r.headers;
    HeadersExact(s, line.pos, n, [], r.headers, max);
    assert RequestAt(s, i, line.pos, n, r);
  }

  /** The request line says nothing of the headers. */
  lemma SameLine(s: seq<Byte>, i: nat, n: nat, r: Request, r': Request)
    requires IsRequestLine(s, i, n, r) && r'.(headers := r.headers) == r
    ensures IsRequestLine(s, i, n, r')
  {
    var v: nat :| RequestLineAt(s, i, v, n, r);
    assert RequestLineAt(s, i, v, n, r');
  }

  lemma RequestIsParsed(s: seq<Byte>, n: nat, r: Request, max: nat)
    requires IsRequest(s, n, r, max)
    ensures ParseRequest(s, max) == Success(n, r)
  {
    var i: nat, j: nat :| RequestAt(s, i, j, n, r);
    RequestLineStart(s, i, j, r);
    hide ParseRequestLine, ParseHeaders, IsRequestLine, AreHeaders, LineEnd;
    if i > 0 {
      LineEndExact(s, 0, i);
    }
    SameLine(s, i, j, r, r.(headers := []));
    RequestLineExact(s, i, j, r.(headers := []));
    HeadersExact(s, j, n, [], r.headers, max);
    assert [] + r.headers == r.headers;
  }

  lemma RequestLineStart(s: seq<Byte>, i: nat, n: nat, r: Request)
    requires IsRequestLine(s, i, n, r)
    ensures i < n <= |s| && s[i] != Abnf.CR && s[i] != Abnf.LF && s[n - 1] == Abnf.LF
  {
    DelimitersAreNoTchars();
    hide Abnf.IsTchar;
    var v: nat :| RequestLineAt(s, i, v, n, r);
    assert Abnf.IsTchar(s[i]);
  }

  // ---------- Everything lies inside ----------

  /** A slice that ends at or before `n`. */
  predicate EndsBy(slice: Slice, n: nat) {
    slice.start + slice.len <= n
  }

  /** What a caller may rely on in a header: both slices end by `n`, the name is a token or missing, and the value has
      neither controls nor a blank at its end. */
  ghost predicate SoundHeader(s: seq<Byte>, h: Header, n: nat) {
    && (h.name.Some? ==> h.name.value.len > 0 && EndsBy(h.name.value, n))
    && (h.name.Some? ==> TokenRun(s, h.name.value.start, h.name.value.start + h.name.value.len))
    && EndsBy(h.value, n) && TextRun(s, h.value.start, h.value.start + h.value.len)
    && (h.value.len > 0 ==> !Abnf.IsWsp(s[h.value.start + h.value.len - 1]))
  }

  lemma HeaderLineIsSound(s: seq<Byte>, i: nat, n: nat, h: Header, continues: bool)
    requires IsHeaderLine(s, i, n, h, continues)
    ensures i < n <= |s| && SoundHeader(s, h, n)
  {
    hide Abnf.IsTchar, IsBlank, Abnf.IsWsp, IsControl, Abnf.IsCtl;
    var q: nat :| ValueUpTo(s, h.value.start, q, n, h.value);
  }

  lemma {:induction false} HeadersAreSound(s: seq<Byte>, i: nat, n: nat, hs: seq<Header>, continues: bool)
    requires AreHeaders(s, i, n, hs, continues)
    ensures i < n <= |s| && forall k :: 0 <= k < |hs| ==> SoundHeader(s, hs[k], n)
    decreases |hs|
  {
    if |hs| > 0 {
      var j := FirstHeader(s, i, n, hs, continues);
      HeaderLineIsSound(s, i, j, hs[0], continues);
      hide IsHeaderLine, AreHeaders, SoundHeader;
      HeadersAreSound(s, j, n, hs[1..], true);
      SoundBefore(s, hs[0], j, n);
      assert forall k :: 0 < k < |hs| ==> hs[k] == hs[1..][k - 1];
    }
  }

  lemma SoundBefore(s: seq<Byte>, h: Header, j: nat, n: nat)
    requires SoundHeader(s, h, j) && j <= n
    ensures SoundHeader(s, h, n)
  {
  }

  /** All slices of a request that is read lie inside the bytes that are consumed; method and names are tokens, the path
      has neither controls nor spaces, and values end in no blank. */
  lemma SlicesLieInside(s: seq<Byte>, n: nat, r: Request, max: nat)
    requires ParseRequest(s, max) == Success(n, r)
    ensures n <= |s| && |r.headers| <= max
    ensures r.httpMethod.len > 0 && EndsBy(r.httpMethod, n)
    ensures TokenRun(s, r.httpMethod.start, r.httpMethod.start + r.httpMethod.len)
    ensures r.path.len > 0 && EndsBy(r.path, n) && PathRun(s, r.path.start, r.path.start + r.path.len)
    ensures forall k :: 0 <= k < |r.headers| ==> SoundHeader(s, r.headers[k], n)
  {
    ParsesExactlyRequests(s, n, r, max);
    hide ParseRequest;
    var i: nat, j: nat :| RequestAt(s, i, j, n, r);
    HeadersAreSound(s, j, n, r.headers, false);
    hide SoundHeader, Abnf.IsTchar, IsControl, Abnf.IsCtl, AreHeaders;
    var v: nat :| RequestLineAt(s, i, v, j, r);
  }
}
