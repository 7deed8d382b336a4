/** The request parser on growing prefixes of a stream: a verdict once reached stays, and it depends on nothing
    behind the point where it was reached. */
module RequestStability {
  import opened Bytes
  import opened RequestSpec

  /** A step's outcome on `s` against its outcome on an extension of `s`: what is decided on `s` is decided the
      same way on the extension, and what succeeds on the extension before the end of `s` already succeeds on `s`. */
  ghost predicate Agree<T>(s: seq<Byte>, onPrefix: Parsed<T>, onWhole: Parsed<T>) {
    && (onPrefix != Partial ==> onWhole == onPrefix)
    && (onWhole.Success? && onWhole.pos < |s| ==> onPrefix == onWhole)
  }

  /** The same for steps that end behind a line end, and so look at nothing beyond it. */
  ghost predicate AgreeClosed<T>(s: seq<Byte>, onPrefix: Parsed<T>, onWhole: Parsed<T>) {
    && (onPrefix != Partial ==> onWhole == onPrefix)
    && (onWhole.Success? && onWhole.pos <= |s| ==> onPrefix == onWhole)
  }

  lemma {:induction false} TokenEndAgrees(s: seq<Byte>, t: seq<Byte>, i: nat, next: Byte)
    requires s <= t && i <= |s|
    ensures Agree(s, TokenEnd(s, i, next), TokenEnd(t, i, next))
    decreases |s| - i
  {
    if i < |s| {
      TokenEndAgrees(s, t, i + 1, next);
    }
  }

  lemma {:induction false} PathEndAgrees(s: seq<Byte>, t: seq<Byte>, i: nat)
    requires s <= t && i <= |s|
    ensures Agree(s, PathEnd(s, i), PathEnd(t, i))
    decreases |s| - i
  {
    if i < |s| {
      PathEndAgrees(s, t, i + 1);
    }
  }

  lemma {:induction false} AfterSpacesAgrees(s: seq<Byte>, t: seq<Byte>, i: nat)
    requires s <= t && i < |s|
    ensures Agree(s, AfterSpaces(s, i), AfterSpaces(t, i))
    decreases |s| - i
  {
    if i + 1 < |s| {
      AfterSpacesAgrees(s, t, i + 1);
    }
  }

  lemma {:induction false} AfterBlanksAgrees(s: seq<Byte>, t: seq<Byte>, i: nat)
    requires s <= t && i <= |s|
    ensures Agree(s, AfterBlanks(s, i), AfterBlanks(t, i))
    decreases |s| - i
  {
    if i < |s| {
      AfterBlanksAgrees(s, t, i + 1);
    }
  }

  lemma {:induction false} ControlAtAgrees(s: seq<Byte>, t: seq<Byte>, i: nat)
    requires s <= t && i <= |s|
    ensures Agree(s, ControlAt(s, i), ControlAt(t, i))
    decreases |s| - i
  {
    if i < |s| {
      ControlAtAgrees(s, t, i + 1);
    }
  }

  lemma TokenToEolAgrees(s: seq<Byte>, t: seq<Byte>, i: nat)
    requires s <= t && i <= |s|
    ensures AgreeClosed(s, TokenToEol(s, i), TokenToEol(t, i))
  {
    hide ControlAt;
    ControlAtAgrees(s, t, i);
  }

  lemma {:induction false} TrimRightAgrees(s: seq<Byte>, t: seq<Byte>, slice: Slice)
    requires s <= t && slice.start + slice.len <= |s|
    ensures TrimRight(s, slice) == TrimRight(t, slice)
    decreases slice.len
  {
    if slice.len > 0 {
      TrimRightAgrees(s, t, slice.(len := slice.len - 1));
    }
  }

  lemma ParseNamedHeaderAgrees(s: seq<Byte>, t: seq<Byte>, i: nat)
    requires s <= t && i < |s|
    ensures AgreeClosed(s, ParseNamedHeader(s, i), ParseNamedHeader(t, i))
  {
    hide TokenEnd, AfterBlanks, TokenToEol, TrimRight;
    TokenEndAgrees(s, t, i, COLON);
    var name := TokenEnd(t, i, COLON);
    if name.Success? && name.pos < |s| {
      AfterBlanksAgrees(s, t, name.pos + 1);
      var v := AfterBlanks(t, name.pos + 1);
      if v.Success? && v.pos < |s| {
        TokenToEolAgrees(s, t, v.pos);
        var r := TokenToEol(t, v.pos);
        if r.Success? && r.pos <= |s| {
          TrimRightAgrees(s, t, r.value);
        }
      }
    }
  }

  lemma ParseHeaderAgrees(s: seq<Byte>, t: seq<Byte>, i: nat, continues: bool)
    requires s <= t && i < |s|
    ensures AgreeClosed(s, ParseHeader(s, i, continues), ParseHeader(t, i, continues))
  {
    hide ParseNamedHeader, TokenToEol, TrimRight;
    ParseNamedHeaderAgrees(s, t, i);
    TokenToEolAgrees(s, t, i);
    var r := TokenToEol(t, i);
    if r.Success? && r.pos <= |s| {
      TrimRightAgrees(s, t, r.value);
    }
  }

  lemma {:induction false} ParseHeadersAgrees(s: seq<Byte>, t: seq<Byte>, i: nat, acc: seq<Header>, max: nat)
    requires s <= t && i <= |s|
    ensures AgreeClosed(s, ParseHeaders(s, i, acc, max), ParseHeaders(t, i, acc, max))
    decreases |s| - i
  {
    hide ParseHeader;
    var blank := BlankLine(s, i);
    if blank.Success? && !blank.value && |acc| != max {
      ParseHeaderAgrees(s, t, i, |acc| != 0);
      var h := ParseHeader(s, i, |acc| != 0);
      if h.Success? {
        ParseHeadersAgrees(s, t, h.pos, acc + [h.value], max);
      }
    }
  }

  lemma ParseRequestLineAgrees(s: seq<Byte>, t: seq<Byte>, i: nat)
    requires s <= t && i <= |s|
    ensures AgreeClosed(s, ParseRequestLine(s, i), ParseRequestLine(t, i))
  {
    hide TokenEnd, AfterSpaces, PathEnd;
    TokenEndAgrees(s, t, i, SP);
    var name := ParseToken(t, i, SP);
    if name.Success? && name.pos < |s| {
      AfterSpacesAgrees(s, t, name.pos);
      var path := AfterSpaces(t, name.pos);
      if path.Success? && path.pos < |s| {
        PathEndAgrees(s, t, path.pos);
        var end := PathEnd(t, path.pos);
        if end.Success? && end.pos < |s| {
          AfterSpacesAgrees(s, t, end.pos);
        }
      }
    }
  }

  lemma ParseRequestAgrees(s: seq<Byte>, t: seq<Byte>, max: nat)
    requires s <= t
    ensures AgreeClosed(s, ParseRequest(s, max), ParseRequest(t, max))
  {
    hide ParseRequestLine, ParseHeaders;
    var first := BlankLine(t, 0);
    if first.Success? && first.pos <= |s| {
      ParseRequestLineAgrees(s, t, first.pos);
      var line := ParseRequestLine(t, first.pos);
      if line.Success? && line.pos <= |s| {
        ParseHeadersAgrees(s, t, line.pos, [], max);
      }
    }
  }

  /** A verdict other than "incomplete" is the verdict on every extension, with the same slices and header list. */
  lemma VerdictStability(s: seq<Byte>, more: seq<Byte>, max: nat)
    requires ParseRequest(s, max) != Partial
    ensures ParseRequest(s + more, max) == ParseRequest(s, max)
  {
    hide ParseRequest;
    ParseRequestAgrees(s, s + more, max);
  }

  /** A request is recognised as soon as its last byte is there, and not earlier: on a buffer that starts with a
      request of `n` bytes, exactly the prefixes of at least `n` bytes are accepted. */
  lemma SuccessExactlyFrom(s: seq<Byte>, k: nat, max: nat)
    requires k <= |s| && ParseRequest(s, max).Success?
    ensures ParseRequest(s[..k], max) == if k < ParseRequest(s, max).pos then Partial else ParseRequest(s, max)
  {
    ParseRequestAgrees(s[..k], s, max);
    hide ParseRequest;
  }
}
