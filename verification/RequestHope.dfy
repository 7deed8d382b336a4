/** Which inputs of the request parser can still become requests: all that it does not reject, but for two kinds that it
    rejects later than it could. */
module RequestHope {
  import Abnf
  import opened Bytes
  import opened RequestSpec
  import opened RequestStability
  import opened RequestGrammar

  /** Some continuation of `s` begins with a request. */
  ghost predicate CanBecomeRequest(s: seq<Byte>, max: nat) {
    exists more, n: nat, r :: IsRequest(s + more, n, r, max)
  }

  // ---------- The parts of the request line ----------

  /** Where the path starts, if the input gets that far. */
  function PathStart(s: seq<Byte>, i: nat): (r: Parsed<()>)
    requires i <= |s|
    ensures r.Success? ==> i < r.pos < |s| && s[r.pos] != Abnf.SP
  {
    var (m, _) :- TokenEnd(s, i, Abnf.SP);
    AfterSpaces(s, m)
  }

  function PathStop(s: seq<Byte>, i: nat): (r: Parsed<()>)
    requires i <= |s|
    ensures r.Success? ==> i < r.pos < |s| && s[r.pos] == Abnf.SP
  {
    var (p, _) :- PathStart(s, i);
    PathEnd(s, p)
  }

  function VersionStart(s: seq<Byte>, i: nat): (r: Parsed<()>)
    requires i <= |s|
    ensures r.Success? ==> i < r.pos < |s| && s[r.pos] != Abnf.SP
  {
    var (e, _) :- PathStop(s, i);
    AfterSpaces(s, e)
  }

  /** The request line in terms of its parts; a path is never empty. */
  lemma LineByParts(s: seq<Byte>, i: nat)
    requires i <= |s|
    ensures VersionStart(s, i) == Partial ==> ParseRequestLine(s, i) == Partial
    ensures VersionStart(s, i) == Bad ==> ParseRequestLine(s, i) == Bad
    ensures VersionStart(s, i).Success? && TokenEnd(s, i, Abnf.SP).pos == i ==> ParseRequestLine(s, i) == Bad
    ensures VersionStart(s, i).Success? && TokenEnd(s, i, Abnf.SP).pos > i ==>
      var v := ParseHttpVersion(s, VersionStart(s, i).pos);
      && (v.IsFailure() ==> ParseRequestLine(s, i) == v.PropagateFailure())
      && (v.Success? ==> var e := LineEnd(s, v.pos);
            && (e.IsFailure() ==> ParseRequestLine(s, i) == e.PropagateFailure())
            && (e.Success? ==> ParseRequestLine(s, i).Success? && ParseRequestLine(s, i).pos == e.pos))
  {
    hide TokenEnd, AfterSpaces, PathEnd, ParseHttpVersion, LineEnd;
  }

  // ---------- The inputs beyond hope ----------

  /** The byte at place `k` of a version may be `b`: `HTTP/1.` and a digit. */
  predicate VersionByte(k: nat, b: Byte) {
    match k
    case 0 => b == 'H' as int
    case 1 => b == 'T' as int
    case 2 => b == 'T' as int
    case 3 => b == 'P' as int
    case 4 => b == '/' as int
    case 5 => b == '1' as int
    case 6 => b == '.' as int
    case _ => Abnf.IsDigit(b)
  }

  /** What there is from `v` on can be the beginning of a version. */
  predicate VersionSoFar(s: seq<Byte>, v: nat) {
    forall k :: v <= k < |s| && k < v + 8 ==> VersionByte(k - v, s[k])
  }

  /** The request line starts with a space; that is looked at only behind the path. */
  predicate EmptyMethod(s: seq<Byte>, i: nat) {
    i < |s| && s[i] == Abnf.SP
  }

  /** Fewer than nine bytes stand where the version should, and they are no version. */
  predicate WrongVersion(s: seq<Byte>, i: nat)
    requires i <= |s|
  {
    var v := VersionStart(s, i);
    v.Success? && |s| < v.pos + 9 && !VersionSoFar(s, v.pos)
  }

  predicate Doomed(s: seq<Byte>) {
    var first := BlankLine(s, 0);
    first.Success? && (EmptyMethod(s, first.pos) || WrongVersion(s, first.pos))
  }

  lemma VersionIsSoFar(s: seq<Byte>, v: nat)
    requires v <= |s|
    ensures ParseHttpVersion(s, v).Success? <==> |s| >= v + 9 && VersionSoFar(s, v)
  {
    if |s| >= v + 9 {
      assert forall k :: 0 <= k < 8 ==> s[v + k] == s[v..][k];
      if VersionSoFar(s, v) {
        assert VersionByte(0, s[v]) && VersionByte(1, s[v + 1]) && VersionByte(2, s[v + 2]);
        assert VersionByte(3, s[v + 3]) && VersionByte(4, s[v + 4]) && VersionByte(5, s[v + 5]);
        assert VersionByte(6, s[v + 6]) && VersionByte(7, s[v + 7]);
      }
    }
  }

  lemma VersionStartAgrees(s: seq<Byte>, t: seq<Byte>, i: nat)
    requires s <= t && i <= |s|
    ensures VersionStart(s, i) != Partial ==> VersionStart(t, i) == VersionStart(s, i)
    ensures PathStop(s, i) != Partial ==> PathStop(t, i) == PathStop(s, i)
    ensures PathStart(s, i) != Partial ==> PathStart(t, i) == PathStart(s, i)
    ensures TokenEnd(s, i, Abnf.SP) != Partial ==> TokenEnd(t, i, Abnf.SP) == TokenEnd(s, i, Abnf.SP)
  {
    hide TokenEnd, AfterSpaces, PathEnd;
    TokenEndAgrees(s, t, i, Abnf.SP);
    if TokenEnd(s, i, Abnf.SP).Success? {
      AfterSpacesAgrees(s, t, TokenEnd(s, i, Abnf.SP).pos);
    }
    if PathStart(s, i).Success? {
      PathEndAgrees(s, t, PathStart(s, i).pos);
    }
    if PathStop(s, i).Success? {
      AfterSpacesAgrees(s, t, PathStop(s, i).pos);
    }
  }

  /** No continuation of such an input is read as a request. */
  lemma DoomedStays(s: seq<Byte>, more: seq<Byte>, max: nat)
    requires Doomed(s)
    ensures !ParseRequest(s + more, max).Success?
  {
    var t, first := s + more, BlankLine(s, 0);
    var i := first.pos;
    assert BlankLine(t, 0) == first;
    LineByParts(t, i);
    if EmptyMethod(s, i) {
      assert TokenEnd(t, i, Abnf.SP).pos == i;
    } else {
      VersionStartAgrees(s, t, i);
      var v := VersionStart(s, i).pos;
      VersionIsSoFar(t, v);
      assert forall k :: 0 <= k < |s| ==> t[k] == s[k];
    }
    hide ParseRequestLine, ParseHeaders, VersionStart, TokenEnd, ParseHttpVersion, VersionSoFar;
  }

  // ---------- A scan that has come to the end of the input goes on behind it ----------

  lemma {:induction false} TokenEndResumes(s: seq<Byte>, t: seq<Byte>, i: nat, next: Byte)
    requires i <= |s| && TokenEnd(s, i, next) == Partial
    ensures TokenEnd(s + t, i, next) == TokenEnd(s + t, |s|, next)
    decreases |s| - i
  {
    if i < |s| {
      TokenEndResumes(s, t, i + 1, next);
    }
  }

  lemma {:induction false} PathEndResumes(s: seq<Byte>, t: seq<Byte>, i: nat)
    requires i <= |s| && PathEnd(s, i) == Partial
    ensures PathEnd(s + t, i) == PathEnd(s + t, |s|)
    decreases |s| - i
  {
    if i < |s| {
      PathEndResumes(s, t, i + 1);
    }
  }

  lemma {:induction false} AfterSpacesResumes(s: seq<Byte>, t: seq<Byte>, i: nat)
    requires i < |s| && AfterSpaces(s, i) == Partial
    ensures AfterSpaces(s + t, i) == AfterSpaces(s + t, |s| - 1)
    decreases |s| - i
  {
    if i + 1 < |s| {
      AfterSpacesResumes(s, t, i + 1);
    }
  }

  lemma {:induction false} AfterBlanksResumes(s: seq<Byte>, t: seq<Byte>, i: nat)
    requires i <= |s| && AfterBlanks(s, i) == Partial
    ensures AfterBlanks(s + t, i) == AfterBlanks(s + t, |s|)
    decreases |s| - i
  {
    if i < |s| {
      AfterBlanksResumes(s, t, i + 1);
    }
  }

  lemma {:induction false} ControlAtResumes(s: seq<Byte>, t: seq<Byte>, i: nat)
    requires i <= |s| && ControlAt(s, i) == Partial
    ensures ControlAt(s + t, i) == ControlAt(s + t, |s|)
    decreases |s| - i
  {
    if i < |s| {
      ControlAtResumes(s, t, i + 1);
    }
  }

  // ---------- Bringing a request line to its end ----------

  /** `t` completes the request line from `i` on. */
  predicate CompletesLine(s: seq<Byte>, t: seq<Byte>, i: nat)
    requires i <= |s|
  {
    var r := ParseRequestLine(s + t, i);
    r.Success? && r.pos == |s + t|
  }

  lemma LineGoesOn(s: seq<Byte>, a: seq<Byte>, b: seq<Byte>, i: nat)
    requires i <= |s| && CompletesLine(s + a, b, i)
    ensures CompletesLine(s, a + b, i)
  {
    assert s + a + b == s + (a + b);
  }

  predicate MethodRead(s: seq<Byte>, i: nat)
    requires i <= |s|
  {
    var m := TokenEnd(s, i, Abnf.SP);
    m.Success? && m.pos > i
  }

  const VERSION: seq<Byte> := [72, 84, 84, 80, 47, 49, 46, 48]

  lemma FromVersion(s: seq<Byte>, i: nat) returns (t: seq<Byte>)
    requires i <= |s| && MethodRead(s, i) && VersionStart(s, i).Success?
    requires var v := VersionStart(s, i).pos; |s| < v + 9 && VersionSoFar(s, v)
    ensures CompletesLine(s, t, i)
  {
    var v := VersionStart(s, i).pos;
    t := VERSION[|s| - v..] + [Abnf.LF];
    var u := s + t;
    VersionStartAgrees(s, u, i);
    assert VersionSoFar(u, v) by {
      forall k | v <= k < |u| && k < v + 8 ensures VersionByte(k - v, u[k]) {
        if k >= |s| {
          assert u[k] == VERSION[k - v];
        }
      }
    }
    VersionIsSoFar(u, v);
    LineByParts(u, i);
  }

  lemma BeforeVersion(s: seq<Byte>, i: nat) returns (t: seq<Byte>)
    requires i <= |s| && MethodRead(s, i) && PathStop(s, i).Success? && VersionStart(s, i) == Partial
    ensures CompletesLine(s, t, i)
  {
    var a: seq<Byte> := [72];
    AfterSpacesResumes(s, a, PathStop(s, i).pos);
    VersionStartAgrees(s, s + a, i);
    t := FromVersion(s + a, i);
    LineGoesOn(s, a, t, i);
    t := a + t;
  }

  lemma InPath(s: seq<Byte>, i: nat) returns (t: seq<Byte>)
    requires i <= |s| && MethodRead(s, i) && PathStart(s, i).Success? && PathStop(s, i) == Partial
    ensures CompletesLine(s, t, i)
  {
    var a: seq<Byte> := [Abnf.SP];
    PathEndResumes(s, a, PathStart(s, i).pos);
    VersionStartAgrees(s, s + a, i);
    t := BeforeVersion(s + a, i);
    LineGoesOn(s, a, t, i);
    t := a + t;
  }

  lemma BeforePath(s: seq<Byte>, i: nat) returns (t: seq<Byte>)
    requires i <= |s| && MethodRead(s, i) && PathStart(s, i) == Partial
    ensures CompletesLine(s, t, i)
  {
    var a: seq<Byte> := ['/' as int];
    AfterSpacesResumes(s, a, TokenEnd(s, i, Abnf.SP).pos);
    VersionStartAgrees(s, s + a, i);
    assert PathEnd(s + a, |s| + 1) == Partial;
    t := InPath(s + a, i);
    LineGoesOn(s, a, t, i);
    t := a + t;
  }

  lemma InMethod(s: seq<Byte>, i: nat) returns (t: seq<Byte>)
    requires i <= |s| && TokenEnd(s, i, Abnf.SP) == Partial
    ensures CompletesLine(s, t, i)
  {
    var a: seq<Byte> := ['G' as int, Abnf.SP];
    TokenEndResumes(s, a, i, Abnf.SP);
    TokenTableIsTchar('G' as int);
    assert TokenEnd(s + a, |s| + 1, Abnf.SP) == Success(|s| + 1, ());
    t := BeforePath(s + a, i);
    LineGoesOn(s, a, t, i);
    t := a + t;
  }

  lemma LineFinishes(s: seq<Byte>, i: nat) returns (t: seq<Byte>)
    requires i <= |s| && ParseRequestLine(s, i) == Partial && !EmptyMethod(s, i) && !WrongVersion(s, i)
    ensures CompletesLine(s, t, i)
  {
    LineByParts(s, i);
    if TokenEnd(s, i, Abnf.SP) == Partial {
      t := InMethod(s, i);
    } else if PathStart(s, i) == Partial {
      t := BeforePath(s, i);
    } else if PathStop(s, i) == Partial {
      t := InPath(s, i);
    } else if VersionStart(s, i) == Partial {
      t := BeforeVersion(s, i);
    } else if ParseHttpVersion(s, VersionStart(s, i).pos) == Partial {
      t := FromVersion(s, i);
    } else {
      t := [Abnf.LF];
      VersionStartAgrees(s, s + t, i);
      LineByParts(s + t, i);
    }
  }

  // ---------- Bringing the headers to their end ----------

  lemma EolFinishes(s: seq<Byte>, i: nat)
    requires i <= |s| && TokenToEol(s, i) == Partial
    ensures TokenToEol(s + [Abnf.LF], i).Success? && TokenToEol(s + [Abnf.LF], i).pos == |s| + 1
  {
    var t := s + [Abnf.LF];
    if ControlAt(s, i) == Partial {
      ControlAtResumes(s, [Abnf.LF], i);
    } else {
      ControlAtAgrees(s, t, i);
    }
  }

  /** `t` completes the header line from `i` on. */
  predicate CompletesHeader(s: seq<Byte>, t: seq<Byte>, i: nat, continues: bool)
    requires i < |s|
  {
    var r := ParseHeader(s + t, i, continues);
    r.Success? && r.pos == |s + t|
  }

  lemma NamedHeaderFinishes(s: seq<Byte>, i: nat) returns (t: seq<Byte>)
    requires i < |s| && ParseNamedHeader(s, i) == Partial
    ensures ParseNamedHeader(s + t, i).Success? && ParseNamedHeader(s + t, i).pos == |s + t|
  {
    if TokenEnd(s, i, Abnf.COLON) == Partial {
      t := ['a' as int, Abnf.COLON, Abnf.LF];
      TokenEndResumes(s, t, i, Abnf.COLON);
      TokenTableIsTchar('a' as int);
      assert TokenEnd(s + t, |s| + 1, Abnf.COLON) == Success(|s| + 1, ());
      assert AfterBlanks(s + t, |s| + 2) == Success(|s| + 2, ());
      assert TokenToEol(s + t, |s| + 2).pos == |s| + 3;
    } else {
      t := [Abnf.LF];
      TokenEndAgrees(s, s + t, i, Abnf.COLON);
      var b := TokenEnd(s, i, Abnf.COLON).pos + 1;
      if AfterBlanks(s, b) == Partial {
        AfterBlanksResumes(s, t, b);
        assert AfterBlanks(s + t, |s|) == Success(|s|, ());
        assert TokenToEol(s + t, |s|).pos == |s| + 1;
      } else {
        AfterBlanksAgrees(s, s + t, b);
        EolFinishes(s, AfterBlanks(s, b).pos);
      }
    }
  }

  lemma HeaderFinishes(s: seq<Byte>, i: nat, continues: bool) returns (t: seq<Byte>)
    requires i < |s| && ParseHeader(s, i, continues) == Partial
    ensures CompletesHeader(s, t, i, continues)
  {
    hide ParseNamedHeader, TokenToEol, TrimRight;
    if continues && Abnf.IsWsp(s[i]) {
      t := [Abnf.LF];
      EolFinishes(s, i);
    } else {
      t := NamedHeaderFinishes(s, i);
    }
  }

  /** The blank line behind a header that has just been completed. */
  lemma BlankLineEndsHeaders(s: seq<Byte>, i: nat, acc: seq<Header>, max: nat)
    requires i < |s| && s[i] != Abnf.CR && s[i] != Abnf.LF && |acc| < max && CompletesHeader(s, [], i, |acc| != 0)
    ensures ParseHeaders(s + [Abnf.LF], i, acc, max).Success?
  {
    var t := s + [Abnf.LF];
    assert s + [] == s;
    ParseHeaderAgrees(s, t, i, |acc| != 0);
    hide ParseHeader;
    var h := ParseHeader(t, i, |acc| != 0);
    assert BlankLine(t, h.pos) == Success(|t|, true);
    assert ParseHeaders(t, h.pos, acc + [h.value], max).Success?;
  }

  lemma {:induction false} HeadersFinish(s: seq<Byte>, i: nat, acc: seq<Header>, max: nat) returns (t: seq<Byte>)
    requires i <= |s| && |acc| <= max && ParseHeaders(s, i, acc, max) == Partial
    ensures ParseHeaders(s + t, i, acc, max).Success?
    decreases |s| - i
  {
    if BlankLine(s, i) == Partial {
      t := [Abnf.LF];
      assert BlankLine(s + t, i).Success? && BlankLine(s + t, i).value;
    } else {
      var h := ParseHeader(s, i, |acc| != 0);
      hide ParseHeader;
      if h == Partial {
        var a := HeaderFinishes(s, i, |acc| != 0);
        assert s + a + [] == s + a;
        BlankLineEndsHeaders(s + a, i, acc, max);
        t := a + [Abnf.LF];
        assert s + a + [Abnf.LF] == s + t;
      } else {
        t := HeadersFinish(s, h.pos, acc + [h.value], max);
        ParseHeaderAgrees(s, s + t, i, |acc| != 0);
      }
    }
  }

  // ---------- The theorem ----------

  lemma RequestFinishes(s: seq<Byte>, max: nat) returns (t: seq<Byte>)
    requires ParseRequest(s, max) == Partial && !Doomed(s) && BlankLine(s, 0).Success?
    ensures ParseRequest(s + t, max).Success?
  {
    var i := BlankLine(s, 0).pos;
    var line := ParseRequestLine(s, i);
    if line == Partial {
      var a := LineFinishes(s, i);
      t := a + [Abnf.LF];
      var u := s + a;
      assert u + [Abnf.LF] == s + t;
      ParseRequestLineAgrees(u, s + t, i);
      hide ParseRequestLine;
      assert BlankLine(s + t, |u|) == Success(|u| + 1, true);
    } else {
      hide ParseRequestLine;
      t := HeadersFinish(s, line.pos, [], max);
      ParseRequestLineAgrees(s, s + t, i);
    }
    assert BlankLine(s + t, 0) == BlankLine(s, 0);
  }

  /** An input of nothing, or of a carriage return alone, has not come to its request line. */
  lemma StartFinishes(s: seq<Byte>, max: nat) returns (t: seq<Byte>)
    requires BlankLine(s, 0) == Partial
    ensures ParseRequest(s + t, max).Success?
  {
    hide ParseRequest, Doomed, BlankLine;
    var a: seq<Byte> := [Abnf.LF];
    BlankLineFinishes(s);
    BlankLineIsStart(s + a, max);
    var b := RequestFinishes(s + a, max);
    t := a + b;
    assert s + a + b == s + t;
  }

  lemma BlankLineFinishes(s: seq<Byte>)
    requires BlankLine(s, 0) == Partial
    ensures BlankLine(s + [Abnf.LF], 0) == Success(|s| + 1, true)
  {
  }

  lemma BlankLineIsStart(s: seq<Byte>, max: nat)
    requires BlankLine(s, 0) == Success(|s|, true)
    ensures ParseRequest(s, max) == Partial && !Doomed(s)
  {
    hide BlankLine, ParseHeaders;
    assert TokenEnd(s, |s|, Abnf.SP) == Partial;
  }

  /** An input can be continued to a request if and only if the parser does not reject it, its method is not empty, and
      fewer than nine bytes in the place of the version, if there are any, begin one. */
  lemma HopefulExactly(s: seq<Byte>, max: nat)
    ensures CanBecomeRequest(s, max) <==> ParseRequest(s, max) != Bad && !Doomed(s)
  {
    hide ParseRequest, IsRequest, Doomed;
    if more, n: nat, r :| IsRequest(s + more, n, r, max) {
      ParsesExactlyRequests(s + more, n, r, max);
      if ParseRequest(s, max) == Bad {
        RejectedForGood(s, more, n, r, max);
      }
      if Doomed(s) {
        DoomedStays(s, more, max);
      }
    }
    if ParseRequest(s, max) != Bad && !Doomed(s) {
      var t: seq<Byte> := [];
      if ParseRequest(s, max) == Partial {
        t := Finish(s, max);
      }
      assert s + [] == s;
      var r := ParseRequest(s + t, max);
      ParsesExactlyRequests(s + t, r.pos, r.value, max);
    }
  }

  lemma Finish(s: seq<Byte>, max: nat) returns (t: seq<Byte>)
    requires ParseRequest(s, max) == Partial && !Doomed(s)
    ensures ParseRequest(s + t, max).Success?
  {
    hide ParseRequest, Doomed;
    if BlankLine(s, 0) == Partial {
      t := StartFinishes(s, max);
    } else {
      assert BlankLine(s, 0).Success? by {
        BadStartIsBad(s, max);
      }
      t := RequestFinishes(s, max);
    }
  }

  lemma BadStartIsBad(s: seq<Byte>, max: nat)
    ensures BlankLine(s, 0) == Bad ==> ParseRequest(s, max) == Bad
  {
    hide ParseRequestLine, ParseHeaders;
  }

  /** A space: the method is empty, but the parser asks for more. */
  lemma EmptyMethodReadsAsIncomplete()
    ensures ParseRequest([Abnf.SP], 0) == Partial && !CanBecomeRequest([Abnf.SP], 0)
  {
    assert BlankLine([Abnf.SP], 0) == Success(0, false);
    HopefulExactly([Abnf.SP], 0);
  }

  /** "G / X": no version starts with X, but the parser asks for more. */
  lemma WrongVersionReadsAsIncomplete()
    ensures var s := [71, 32, 47, 32, 88]; ParseRequest(s, 0) == Partial && !CanBecomeRequest(s, 0)
  {
    var s: seq<Byte> := [71, 32, 47, 32, 88];
    TokenTableIsTchar(71);
    assert TokenEnd(s, 1, Abnf.SP) == Success(1, ());
    assert PathEnd(s, 3) == Success(3, ());
    assert PathEnd(s, 2) == Success(3, ());
    assert AfterSpaces(s, 1) == Success(2, ()) && AfterSpaces(s, 3) == Success(4, ());
    assert VersionStart(s, 0) == Success(4, ()) && !VersionByte(0, s[4]);
    HopefulExactly(s, 0);
  }
}
