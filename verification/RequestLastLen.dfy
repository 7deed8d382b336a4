/** The `last_len` shortcut of the request parser: what the scan for a blank line decides, that it changes no success,
    and exactly when it changes a failure. */
module RequestLastLen {
  import Abnf
  import opened Bytes
  import opened RequestSpec
  import opened RequestStability
  import opened RequestGrammar

  // ---------- What the scan decides ----------

  /** A line feed, perhaps a carriage return, and a line feed, from `i` on and up to `n`; if `count` is 1, a line feed
      stands before `i` already. */
  predicate BlankEndsAt(s: seq<Byte>, i: nat, count: nat, n: nat) {
    && i < n <= |s| && s[n - 1] == Abnf.LF
    && (|| (n == i + 1 && count == 1)
        || (n == i + 2 && s[i] == Abnf.CR && count == 1)
        || (n >= i + 2 && s[n - 2] == Abnf.LF)
        || (n >= i + 3 && s[n - 2] == Abnf.CR && s[n - 3] == Abnf.LF))
  }

  /** A carriage return at `p` that something else than a line feed follows. */
  predicate LoneCr(s: seq<Byte>, i: nat, p: nat) {
    i <= p && p + 1 < |s| && s[p] == Abnf.CR && s[p + 1] != Abnf.LF
  }

  /** The scan succeeds at `n`: the first blank line ends there, and no lone carriage return is before it. */
  ghost predicate BlankFirst(s: seq<Byte>, i: nat, count: nat, n: nat) {
    && BlankEndsAt(s, i, count, n)
    && (forall m: nat :: m < n ==> !BlankEndsAt(s, i, count, m))
    && (forall p: nat :: p < n ==> !LoneCr(s, i, p))
  }

  /** The scan fails: a lone carriage return comes before any blank line. */
  ghost predicate CrFirst(s: seq<Byte>, i: nat, count: nat) {
    exists p: nat :: CrFirstAt(s, i, count, p)
  }

  ghost predicate CrFirstAt(s: seq<Byte>, i: nat, count: nat, p: nat) {
    LoneCr(s, i, p) && forall m: nat :: m <= p ==> !BlankEndsAt(s, i, count, m)
  }

  /** The scan gets to the end: there is neither. */
  ghost predicate NeitherThere(s: seq<Byte>, i: nat, count: nat) {
    (forall m: nat :: !BlankEndsAt(s, i, count, m)) && (forall p: nat :: !LoneCr(s, i, p))
  }

  /** How many bytes one round of the scan takes: a line end or a byte of a line. */
  function Taken(s: seq<Byte>, i: nat): nat
    requires i < |s|
  {
    if s[i] == Abnf.CR then 2 else 1
  }

  /** A round of the scan that does not end it moves on to the same blank lines and lone carriage returns. */
  lemma RoundKeeps(s: seq<Byte>, i: nat, count: nat, m: nat)
    requires i < |s| && count < 2 && (s[i] == Abnf.CR ==> i + 1 < |s| && s[i + 1] == Abnf.LF)
    requires s[i] == Abnf.CR || s[i] == Abnf.LF ==> count == 0
    ensures var i', count' := i + Taken(s, i), if s[i] == Abnf.CR || s[i] == Abnf.LF then 1 else 0;
      && (BlankEndsAt(s, i, count, m) <==> BlankEndsAt(s, i', count', m))
      && (LoneCr(s, i, m) <==> LoneCr(s, i', m))
  {
  }

  ghost predicate Decided(s: seq<Byte>, i: nat, count: nat, r: Parsed<()>) {
    match r
    case Success(n, _) => BlankFirst(s, i, count, n)
    case Bad => CrFirst(s, i, count)
    case Partial => NeitherThere(s, i, count)
  }

  lemma {:induction false} ScanDecides(s: seq<Byte>, i: nat, count: nat)
    requires i <= |s| && count < 2
    ensures Decided(s, i, count, IsComplete(s, i, count))
    decreases |s| - i
  {
    if i < |s| {
      if s[i] == Abnf.CR && (i + 1 == |s| || s[i + 1] != Abnf.LF) {
        assert i + 1 < |s| ==> CrFirstAt(s, i, count, i);
      } else if s[i] != Abnf.CR && s[i] != Abnf.LF {
        ScanGoesOn(s, i, count);
      } else if count == 0 {
        ScanGoesOn(s, i, count);
      } else {
        assert BlankFirst(s, i, count, i + Taken(s, i));
      }
    }
  }

  lemma ScanGoesOn(s: seq<Byte>, i: nat, count: nat)
    requires i < |s| && count < 2 && (s[i] == Abnf.CR ==> i + 1 < |s| && s[i + 1] == Abnf.LF)
    requires s[i] == Abnf.CR || s[i] == Abnf.LF ==> count == 0
    ensures Decided(s, i, count, IsComplete(s, i, count))
    decreases |s| - i, 0
  {
    var i', count' := i + Taken(s, i), if s[i] == Abnf.CR || s[i] == Abnf.LF then 1 else 0;
    ScanDecides(s, i', count');
    var r := IsComplete(s, i', count');
    assert IsComplete(s, i, count) == r;
    forall m: nat
      ensures BlankEndsAt(s, i, count, m) <==> BlankEndsAt(s, i', count', m)
      ensures LoneCr(s, i, m) <==> LoneCr(s, i', m)
    {
      RoundKeeps(s, i, count, m);
    }
    hide BlankEndsAt, LoneCr, IsComplete;
    if r.Bad? {
      var p: nat :| CrFirstAt(s, i', count', p);
      assert CrFirstAt(s, i, count, p);
    }
  }

  /** The three verdicts of the scan, each in terms of the bytes from `i` on alone. */
  lemma ScanExact(s: seq<Byte>, i: nat)
    requires i <= |s|
    ensures forall n: nat :: EndsAt(IsComplete(s, i, 0), n) <==> BlankFirst(s, i, 0, n)
    ensures IsComplete(s, i, 0) == Bad <==> CrFirst(s, i, 0)
    ensures IsComplete(s, i, 0) == Partial <==> NeitherThere(s, i, 0)
  {
    ScanDecides(s, i, 0);
    hide IsComplete, BlankEndsAt, LoneCr;
    var r := IsComplete(s, i, 0);
    if r.Success? {
      assert BlankEndsAt(s, i, 0, r.pos);
    }
    if p: nat :| CrFirstAt(s, i, 0, p) {
      assert LoneCr(s, i, p);
    }
    forall n: nat | BlankFirst(s, i, 0, n) ensures EndsAt(r, n) {
      assert BlankEndsAt(s, i, 0, n);
    }
  }

  // ---------- Requests are complete ----------

  /** In `s[i..n]` every carriage return is followed by a line feed. */
  ghost predicate CrsPaired(s: seq<Byte>, i: nat, n: nat) {
    i <= n <= |s| && forall j :: i <= j < n && s[j] == Abnf.CR ==> j + 1 < n && s[j + 1] == Abnf.LF
  }

  lemma PairedJoin(s: seq<Byte>, i: nat, j: nat, n: nat)
    requires CrsPaired(s, i, j) && CrsPaired(s, j, n)
    ensures CrsPaired(s, i, n)
  {
  }

  lemma ValueLinePaired(s: seq<Byte>, i: nat, n: nat, v: Slice)
    requires IsValueLine(s, i, n, v)
    ensures i < n <= |s| && CrsPaired(s, i, n) && s[n - 1] == Abnf.LF
  {
    var q: nat :| ValueUpTo(s, i, q, n, v);
    assert forall j :: i <= j < q ==> s[j] != Abnf.CR;
  }

  lemma HeaderLinePaired(s: seq<Byte>, i: nat, n: nat, h: Header, continues: bool)
    requires IsHeaderLine(s, i, n, h, continues)
    ensures i < n <= |s| && CrsPaired(s, i, n) && s[n - 1] == Abnf.LF
  {
    DelimitersAreNoTchars();
    hide Abnf.IsTchar, IsValueLine;
    if !IsNamedHeader(s, i, n, h) {
      ValueLinePaired(s, i, n, h.value);
    } else {
      ValueLinePaired(s, h.value.start, n, h.value);
      assert forall j :: i <= j < h.value.start ==> s[j] != Abnf.CR;
    }
  }

  /** Header lines pair their carriage returns, and end in a line end at some `e` directly behind a line. */
  lemma {:induction false} HeadersPaired(s: seq<Byte>, i: nat, n: nat, hs: seq<Header>, continues: bool)
    returns (e: nat)
    requires AreHeaders(s, i, n, hs, continues) && 0 < i <= |s| && s[i - 1] == Abnf.LF
    ensures i < n && CrsPaired(s, i, n)
    ensures i <= e && IsLineEnd(s, e, n) && s[e - 1] == Abnf.LF
    decreases |hs|
  {
    if |hs| == 0 {
      e := i;
    } else {
      var j := FirstHeader(s, i, n, hs, continues);
      hide IsHeaderLine, AreHeaders, IsLineEnd, CrsPaired;
      HeaderLinePaired(s, i, j, hs[0], continues);
      e := HeadersPaired(s, j, n, hs[1..], true);
      PairedJoin(s, i, j, n);
    }
  }

  lemma RequestLinePaired(s: seq<Byte>, i: nat, n: nat, r: Request)
    requires IsRequestLine(s, i, n, r)
    ensures i < n && CrsPaired(s, i, n)
  {
    DelimitersAreNoTchars();
    hide Abnf.IsTchar;
    var v: nat :| RequestLineAt(s, i, v, n, r);
    assert forall j :: i <= j < v ==> s[j] != Abnf.CR;
  }

  /** A request pairs its carriage returns and ends in an empty line at some `e`. */
  lemma RequestPaired(s: seq<Byte>, n: nat, r: Request, max: nat) returns (e: nat)
    requires IsRequest(s, n, r, max)
    ensures CrsPaired(s, 0, n) && 0 < e && IsLineEnd(s, e, n) && s[e - 1] == Abnf.LF
  {
    var i: nat, j: nat :| RequestAt(s, i, j, n, r);
    RequestLinePaired(s, i, j, r);
    RequestLineStart(s, i, j, r);
    hide IsRequestLine;
    e := HeadersPaired(s, j, n, r.headers, false);
    assert i > 0 ==> CrsPaired(s, 0, i);
  }

  /** The scan for two line ends finds the empty line at `e` from anywhere before the line feed in front of it. */
  lemma {:induction false} FindsEmptyLine(s: seq<Byte>, i: nat, count: nat, e: nat, n: nat)
    requires i < e < n <= |s| && count < 2
    requires CrsPaired(s, i, n) && IsLineEnd(s, e, n) && s[e - 1] == Abnf.LF
    ensures IsComplete(s, i, count).Success? && IsComplete(s, i, count).pos <= n
    decreases e - i
  {
    if s[i] == Abnf.CR {
      if count + 1 < 2 && i + 2 < e {
        FindsEmptyLine(s, i + 2, count + 1, e, n);
      }
    } else if s[i] == Abnf.LF {
      if count + 1 < 2 && i + 1 < e {
        FindsEmptyLine(s, i + 1, count + 1, e, n);
      }
    } else {
      FindsEmptyLine(s, i + 1, 0, e, n);
    }
  }

  /** When a first call has found the first `lastLen` bytes incomplete, a second call with `lastLen` succeeds exactly
      when one without it would, and with the same result: starting the scan three bytes back misses no empty line. */
  lemma LastLenIsTransparent(s: seq<Byte>, max: nat, lastLen: nat)
    requires lastLen <= |s| && ParseRequest(s[..lastLen], max) == Partial
    ensures PhrParseRequest(s, max, lastLen).Success? <==> ParseRequest(s, max).Success?
    ensures ParseRequest(s, max).Success? ==> PhrParseRequest(s, max, lastLen) == ParseRequest(s, max)
  {
    var parsed := ParseRequest(s, max);
    if parsed.Success? {
      SuccessExactlyFrom(s, lastLen, max);
      ParsesExactlyRequests(s, parsed.pos, parsed.value, max);
      hide ParseRequest, IsRequest;
      var e := RequestPaired(s, parsed.pos, parsed.value, max);
      FindsEmptyLine(s, CompletenessStart(lastLen), 0, e, parsed.pos);
    }
  }

  // ---------- Failures ----------

  /** The whole verdict is kept exactly in these cases: a success always; a rejection if the bytes from three before
      `lastLen` hold a blank line or a lone carriage return, so that the scan says anything at all; "incomplete"
      unless a lone carriage return comes before any blank line there. */
  lemma LastLenKeepsVerdictIff(s: seq<Byte>, max: nat, lastLen: nat)
    requires lastLen <= |s| && ParseRequest(s[..lastLen], max) == Partial
    ensures PhrParseRequest(s, max, lastLen) == ParseRequest(s, max) <==>
      || lastLen == 0
      || var from := if lastLen < 3 then 0 else lastLen - 3;
         match ParseRequest(s, max)
         case Success(_, _) => true
         case Bad => !NeitherThere(s, from, 0)
         case Partial => !CrFirst(s, from, 0)
  {
    LastLenIsTransparent(s, max, lastLen);
    ScanExact(s, CompletenessStart(lastLen));
    hide ParseRequest, IsComplete, NeitherThere, CrFirst, BlankFirst;
  }

  /** When the shortcut itself rejects, it is right, even of an input that is incomplete without it: no continuation of
      the input begins with a request. */
  lemma ShortcutRejectsForGood(s: seq<Byte>, more: seq<Byte>, n: nat, r: Request, max: nat, lastLen: nat)
    requires lastLen <= |s| && ParseRequest(s[..lastLen], max) == Partial
    requires PhrParseRequest(s, max, lastLen) == Bad
    ensures !IsRequest(s + more, n, r, max)
  {
    if ParseRequest(s, max) == Bad {
      RejectedForGood(s, more, n, r, max);
    } else if IsRequest(s + more, n, r, max) {
      var t, i := s + more, CompletenessStart(lastLen);
      ScanExact(s, i);
      hide ParseRequest, IsRequest, IsComplete;
      var p: nat :| CrFirstAt(s, i, 0, p);
      assert t[p] == Abnf.CR && t[p + 1] == s[p + 1] != Abnf.LF;
      var e := RequestPaired(t, n, r, max);
      assert n <= p;
      ParsesExactlyRequests(t, n, r, max);
      SuccessExactlyFrom(t, |s|, max);
      assert t[..|s|] == s;
      LastLenIsTransparent(s, max, lastLen);
    }
  }

  /** "G" and a zero byte: rejected, but with a `last_len` of 1 incomplete, since the scan finds nothing. */
  lemma RejectedReadsAsIncomplete()
    ensures ParseRequest([71], 0) == Partial
    ensures ParseRequest([71, 0], 0) == Bad && PhrParseRequest([71, 0], 0, 1) == Partial
  {
    assert TokenEnd([71, 0], 1, Abnf.SP) == Bad;
    assert TokenEnd([71], 1, Abnf.SP) == Partial;
    assert IsComplete([71, 0], 2, 0) == Partial;
    assert IsComplete([71, 0], 1, 0) == Partial;
    TokenTableIsTchar(71);
  }

  /** "G / " and a carriage return and "X": incomplete, since the version is looked at nine bytes at a time, but with a
      `last_len` of 1 rejected, since the scan meets the carriage return. */
  lemma IncompleteReadsAsRejected()
    ensures ParseRequest([71], 0) == Partial
    ensures var s := [71, 32, 47, 32, 13, 88]; ParseRequest(s, 0) == Partial && PhrParseRequest(s, 0, 1) == Bad
  {
    var s: seq<Byte> := [71, 32, 47, 32, 13, 88];
    TokenTableIsTchar(71);
    assert TokenEnd([71], 1, Abnf.SP) == Partial;
    assert TokenEnd(s, 1, Abnf.SP) == Success(1, ());
    assert PathEnd(s, 3) == Success(3, ());
    assert PathEnd(s, 2) == Success(3, ());
    assert AfterSpaces(s, 1) == Success(2, ()) && AfterSpaces(s, 3) == Success(4, ());
    assert CrFirstAt(s, 0, 0, 4);
    ScanExact(s, 0);
  }
}
