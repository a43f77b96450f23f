/** Exactly which byte streams are refused, and with which error; what the digits and the white space are. */
module ChunkedFailures {
  import opened Wrappers
  import opened Bytes
  import opened ChunkedBody
  import opened ChunkedStreams

  // ---------------------------------------------------------------- digits and white space

  /** A number in hexadecimal, most significant digit first. */
  function HexOf(upper: bool, n: nat): seq<byte> {
    var d := n % 16;
    (if n < 16 then [] else HexOf(upper, n / 16)) +
    [if d < 10 then 48 + d else if upper then 65 + d - 10 else 97 + d - 10]
  }

  /** Numbers in hexadecimal, in digits of either case, read as themselves. */
  lemma {:induction false} HexOfReads(upper: bool, n: nat)
    ensures HexOf(upper, n) != [] && HexText(HexOf(upper, n)) && HexValue(HexOf(upper, n)) == n
  {
    var s := HexOf(upper, n);
    if n >= 16 {
      HexOfReads(upper, n / 16);
      assert s[..|s| - 1] == HexOf(upper, n / 16);
    } else {
      assert s[..|s| - 1] == [];
      assert HexValue([]) == 0;
    }
  }

  /** The UTF-8 form of a character below 0x10000. */
  function Utf8(c: u16): seq<byte> {
    if c < 0x80 then [c]
    else if c < 0x800 then [0xC0 + c / 64, 0x80 + c % 64]
    else [0xE0 + c / 4096, 0x80 + c / 64 % 64, 0x80 + c % 64]
  }

  /** The white space characters of Unicode. */
  predicate White(c: u16) {
    || 0x9 <= c <= 0xD || c == 0x20 || c == 0x85 || c == 0xA0 || c == 0x1680 || 0x2000 <= c <= 0x200A
    || c == 0x2028 || c == 0x2029 || c == 0x202F || c == 0x205F || c == 0x3000
  }

  /** What is trimmed from the start is a white space character, and any is. */
  lemma SpaceIsWhite(s: seq<byte>)
    ensures SpaceAtStart(s) > 0 <==> exists c: u16 :: White(c) && Utf8(c) <= s
    ensures forall c: u16 :: White(c) && Utf8(c) <= s ==> SpaceAtStart(s) == |Utf8(c)|
  {
    if SpaceAtStart(s) == 1 {
      assert White(s[0]) && Utf8(s[0]) <= s;
    } else if SpaceAtStart(s) == 2 {
      assert White(s[1]) && Utf8(s[1]) <= s;
    } else if SpaceAtStart(s) == 3 {
      var c: u16 := (s[0] as int - 0xE0) * 4096 + (s[1] as int - 0x80) * 64 + (s[2] as int - 0x80);
      assert White(c) && Utf8(c) <= s;
    }
    forall c: u16 | White(c) && Utf8(c) <= s
      ensures SpaceAtStart(s) == |Utf8(c)|
    {
      Starts(c, s);
    }
  }

  lemma Starts(c: u16, s: seq<byte>)
    requires White(c) && Utf8(c) <= s
    ensures SpaceAtStart(s) == |Utf8(c)|
  {
    assert forall i :: 0 <= i < |Utf8(c)| ==> s[i] == Utf8(c)[i];
  }

  /** The same at the end. */
  lemma SpaceAtEndIsWhite(s: seq<byte>)
    ensures SpaceAtEnd(s) > 0 <==> exists c: u16, before :: White(c) && s == before + Utf8(c)
  {
    hide Utf8;
    hide White;
    SpaceIsLocal([], s);
    if SpaceAtEnd(s) > 0 {
      var w := s[|s| - SpaceAtEnd(s)..];
      SpaceIsWhite(w);
      var c: u16 :| White(c) && Utf8(c) <= w;
      assert Utf8(c) == w;
      assert s == s[..|s| - SpaceAtEnd(s)] + Utf8(c);
    }
    if c: u16, before :| White(c) && s == before + Utf8(c) {
      SpaceIsWhite(Utf8(c));
      var w := Utf8(c);
      SpaceIsLocal(w, []);
      assert w[..|w|] == w;
      SpaceIsLocal(before, w);
    }
  }

  // ---------------------------------------------------------------- lines that do not arrive

  function Ended(ending: Ending): BodyError { if ending == Closed then IncompleteBody else ReadError }

  predicate NotText(utf8: seq<byte> -> bool, s: seq<byte>, raw: seq<byte>, rest: seq<byte>) {
    LF !in raw && |raw| <= 1024 && !utf8(StripCr(raw)) && s == raw + [LF] + rest
  }

  /** The stream ends before its line feed, the line is longer than 1024 bytes, or it is not valid text. */
  ghost predicate LineFails(utf8: seq<byte> -> bool, s: seq<byte>, ending: Ending, e: BodyError) {
    || (LF !in s && |s| <= 1024 && e == Ended(ending))
    || (|s| > 1024 && LF !in s[..1025] && e == MalformedChunk)
    || (e == MalformedChunk && exists raw, rest :: NotText(utf8, s, raw, rest))
  }

  /** One of the three is the case wherever no line is read. */
  lemma {:induction false} LineFailed(utf8: seq<byte> -> bool, sofar: seq<byte>, s: seq<byte>, ending: Ending)
    returns (raw: seq<byte>, rest: seq<byte>)
    requires LineOf(utf8, s, ending, sofar).Failed? && LF !in sofar && |sofar| <= 1024
    ensures
      var e := LineOf(utf8, s, ending, sofar).error;
      || (LF !in s && |sofar| + |s| <= 1024 && e == Ended(ending))
      || (|sofar| + |s| > 1024 && LF !in s[..1025 - |sofar|] && e == MalformedChunk)
      || (NotText(utf8, sofar + s, sofar + raw, rest) && e == MalformedChunk)
    decreases |s|
  {
    raw, rest := [], [];
    if s == [] {
    } else if s[0] == LF {
      rest := s[1..];
      assert sofar + [] == sofar;
      assert sofar + s == sofar + [LF] + rest;
    } else if |sofar| + 1 > 1024 {
      assert s[..1] == [s[0]];
    } else {
      var longer := sofar + [s[0]];
      raw, rest := LineFailed(utf8, longer, s[1..], ending);
      assert longer + s[1..] == sofar + s;
      assert longer + raw == sofar + ([s[0]] + raw);
      raw := [s[0]] + raw;
      if |sofar| + |s| > 1024 {
        assert s[..1025 - |sofar|] == [s[0]] + s[1..][..1025 - |longer|];
      }
      assert s == [s[0]] + s[1..];
    }
  }

  lemma {:induction false} LineTooLong(utf8: seq<byte> -> bool, sofar: seq<byte>, s: seq<byte>, ending: Ending)
    requires |sofar| <= 1024 < |sofar| + |s| && LF !in s[..1025 - |sofar|]
    ensures LineOf(utf8, s, ending, sofar) == Failed(MalformedChunk)
    decreases |s|
  {
    assert s[0] == s[..1025 - |sofar|][0];
    if |sofar| < 1024 {
      assert s[1..][..1024 - |sofar|] == s[..1025 - |sofar|][1..];
      LineTooLong(utf8, sofar + [s[0]], s[1..], ending);
    }
  }

  lemma {:induction false} LineNotText(utf8: seq<byte> -> bool, sofar: seq<byte>, raw: seq<byte>, rest: seq<byte>,
      ending: Ending)
    requires LF !in raw && |sofar + raw| <= 1024 && !utf8(StripCr(sofar + raw))
    ensures LineOf(utf8, raw + [LF] + rest, ending, sofar) == Failed(MalformedChunk)
    decreases |raw|
  {
    var s := raw + [LF] + rest;
    if raw == [] {
      assert sofar + raw == sofar;
    } else {
      assert s[1..] == raw[1..] + [LF] + rest;
      assert sofar + [raw[0]] + raw[1..] == sofar + raw;
      assert raw[0] in raw;
      LineNotText(utf8, sofar + [raw[0]], raw[1..], rest, ending);
    }
  }

  lemma LineFailsExactly(utf8: seq<byte> -> bool, s: seq<byte>, ending: Ending, e: BodyError)
    ensures LineOf(utf8, s, ending, []) == Failed(e) <==> LineFails(utf8, s, ending, e)
  {
    hide LineOf;
    if LineOf(utf8, s, ending, []) == Failed(e) {
      var raw, rest := LineFailed(utf8, [], s, ending);
      assert [] + s == s && [] + raw == raw;
    }
    if LineFails(utf8, s, ending, e) {
      if LF !in s && |s| <= 1024 {
        LineCut(utf8, [], s, ending);
      } else if |s| > 1024 && LF !in s[..1025] {
        LineTooLong(utf8, [], s, ending);
      } else {
        var raw, rest :| NotText(utf8, s, raw, rest);
        assert [] + raw == raw;
        LineNotText(utf8, [], raw, rest, ending);
      }
    }
  }

  // ---------------------------------------------------------------- bodies that are refused

  /** Trailer lines, none of them blank. */
  function TrailerLines(ts: seq<seq<byte>>): seq<byte> {
    if ts == [] then [] else ts[0] + [LF] + TrailerLines(ts[1..])
  }

  predicate TrailersOk(utf8: seq<byte> -> bool, ts: seq<seq<byte>>) {
    forall i :: 0 <= i < |ts| ==> Arrives(utf8, ts[i]) && !Spaces(StripCr(ts[i]))
  }

  ghost predicate TrailersFailAfter(utf8: seq<byte> -> bool, s: seq<byte>, ending: Ending, e: BodyError,
      ts: seq<seq<byte>>, rest: seq<byte>)
  {
    TrailersOk(utf8, ts) && s == TrailerLines(ts) + rest && LineFails(utf8, rest, ending, e)
  }

  ghost predicate TrailersFail(utf8: seq<byte> -> bool, s: seq<byte>, ending: Ending, e: BodyError) {
    exists ts, rest :: TrailersFailAfter(utf8, s, ending, e, ts, rest)
  }

  lemma {:induction false} TrailersFailed(utf8: seq<byte> -> bool, s: seq<byte>, ending: Ending)
    returns (ts: seq<seq<byte>>, rest: seq<byte>)
    requires Trailers(utf8, s, ending).Failed?
    ensures TrailersFailAfter(utf8, s, ending, Trailers(utf8, s, ending).error, ts, rest)
    decreases |s|
  {
    hide LineFails;
    hide Arrives;
    if LineOf(utf8, s, ending, []).Failed? {
      LineFailsExactly(utf8, s, ending, LineOf(utf8, s, ending, []).error);
      ts, rest := [], s;
      assert s == [] + s;
    } else {
      var raw := FirstArrived(utf8, s, ending);
      var after := LineOf(utf8, s, ending, []).rest;
      hide LineOf;
      BlankIsSpaces(StripCr(raw));
      var more;
      more, rest := TrailersFailed(utf8, after, ending);
      ts := [raw] + more;
      assert ts[1..] == more;
      Regroup(raw + [LF], TrailerLines(more), rest);
    }
  }

  lemma {:induction false} TrailersDoFail(utf8: seq<byte> -> bool, s: seq<byte>, ending: Ending, e: BodyError,
      ts: seq<seq<byte>>, rest: seq<byte>)
    requires TrailersFailAfter(utf8, s, ending, e, ts, rest)
    ensures Trailers(utf8, s, ending) == Failed(e)
    decreases |ts|
  {
    hide LineFails;
    hide Arrives;
    hide LineOf;
    if ts == [] {
      assert s == rest;
      LineFailsExactly(utf8, s, ending, e);
    } else {
      var after := TrailerLines(ts[1..]) + rest;
      Regroup(ts[0] + [LF], TrailerLines(ts[1..]), rest);
      FirstArrives(utf8, ts[0], after, ending);
      BlankIsSpaces(StripCr(ts[0]));
      TrailersDoFail(utf8, after, ending, e, ts[1..], rest);
    }
  }

  /** After a line that says size `n`, with `k` bytes of body so far. */
  predicate DataFails(after: seq<byte>, ending: Ending, k: nat, n: nat, e: BodyError) {
    if k + n > 0xFFFF_FFFF_FFFF_FFFF then e == SizeOverflow
    else if k + n > 2_097_152 then e == PayloadTooLarge
    else if |after| < n + 2 then e == Ended(ending)
    else after[n..n + 2] != CRLF && e == MalformedChunk
  }

  /** A line of this text leads to the error. */
  ghost predicate LeadsTo(utf8: seq<byte> -> bool, text: seq<byte>, after: seq<byte>, ending: Ending, k: nat,
      e: BodyError)
  {
    || (!Spaces(text) && (forall n: u64 :: !SaysSize(text, n)) && e == MalformedChunk)
    || (SaysSize(text, 0) && TrailersFail(utf8, after, ending, e))
    || exists n: u64 :: n > 0 && SaysSize(text, n) && DataFails(after, ending, k, n, e)
  }

  ghost predicate ArrivesAndLeads(utf8: seq<byte> -> bool, s: seq<byte>, ending: Ending, k: nat, e: BodyError,
      raw: seq<byte>, after: seq<byte>)
  {
    Arrives(utf8, raw) && s == raw + [LF] + after && LeadsTo(utf8, StripCr(raw), after, ending, k, e)
  }

  /** The first line of the stream does not arrive, or leads to the error. */
  ghost predicate FailsHere(utf8: seq<byte> -> bool, s: seq<byte>, ending: Ending, k: nat, e: BodyError) {
    || LineFails(utf8, s, ending, e)
    || exists raw, after :: ArrivesAndLeads(utf8, s, ending, k, e, raw, after)
  }

  /** Whole pieces within the limit, and then a failure. */
  ghost predicate FailsAfter(utf8: seq<byte> -> bool, s: seq<byte>, ending: Ending, k: nat, e: BodyError,
      ps: seq<Piece>, rest: seq<byte>)
  {
    && PiecesOk(utf8, ps) && s == PiecesBytes(ps) + rest
    && k + |Carried(ps)| <= 2_097_152 && FailsHere(utf8, rest, ending, k + |Carried(ps)|, e)
  }

  /** What a text says is one thing. */
  lemma OneMeaning(text: seq<byte>)
    ensures HeaderOf(text) == BadSize <==> !Spaces(text) && forall n: u64 :: !SaysSize(text, n)
    ensures forall n: u64 :: HeaderOf(text) == Size(n) <==> SaysSize(text, n)
  {
    hide HeaderOf;
    hide SaysSize;
    BlankIsSpaces(text);
    forall n: u64
      ensures HeaderOf(text) == Size(n) <==> SaysSize(text, n)
    {
      SizeExactly(text, n);
    }
  }

  lemma TrailersFailExactly(utf8: seq<byte> -> bool, s: seq<byte>, ending: Ending, e: BodyError)
    ensures Trailers(utf8, s, ending) == Failed(e) <==> TrailersFail(utf8, s, ending, e)
  {
    hide Trailers;
    hide TrailersFailAfter;
    if Trailers(utf8, s, ending) == Failed(e) {
      var ts, rest := TrailersFailed(utf8, s, ending);
    }
    if ts, rest :| TrailersFailAfter(utf8, s, ending, e, ts, rest) {
      TrailersDoFail(utf8, s, ending, e, ts, rest);
    }
  }

  lemma CrLfIs(after: seq<byte>, n: nat, ending: Ending)
    requires n <= |after|
    ensures CrLf(after[n..], ending) ==
            if |after| < n + 2 then Failed(Ended(ending))
            else if after[n..n + 2] != CRLF then Failed(MalformedChunk)
            else Got((), after[n + 2..])
  {
    if |after| >= n + 2 {
      assert after[n..n + 2] == [after[n], after[n + 1]];
      assert after[n..][2..] == after[n + 2..];
    }
  }

  /** Where a line arrives, decoding goes on, ends or fails by what it says. */
  lemma LineDecides(utf8: seq<byte> -> bool, text: seq<byte>, s: seq<byte>, after: seq<byte>, ending: Ending,
      body: seq<byte>, e: BodyError)
    requires LineOf(utf8, s, ending, []) == Got(text, after) && |body| <= 2_097_152
    ensures LeadsTo(utf8, text, after, ending, |body|, e) ==> Decoded(utf8, s, ending, body) == Err(e)
    ensures Decoded(utf8, s, ending, body) == Err(e) && !LeadsTo(utf8, text, after, ending, |body|, e) ==>
              || HeaderOf(text) == BlankLine
              || exists n: u64 :: n > 0 && HeaderOf(text) == Size(n) && |body| + n <= 2_097_152 &&
                   n + 2 <= |after| && after[n..n + 2] == CRLF
  {
    hide LineOf;
    hide HeaderOf;
    hide SaysSize;
    hide TrailersFail;
    hide CrLf;
    OneMeaning(text);
    TrailersFailExactly(utf8, after, ending, e);
    hide Trailers;
    hide DataFails;
    match HeaderOf(text)
    case BlankLine =>
    case BadSize =>
    case Size(n) =>
      assert forall m: u64 :: SaysSize(text, m) ==> m == n;
      if n > 0 {
        DataDecides(utf8, text, s, after, n, ending, body, e);
      }
  }

  lemma DataDecides(utf8: seq<byte> -> bool, text: seq<byte>, s: seq<byte>, after: seq<byte>, n: u64, ending: Ending,
      body: seq<byte>, e: BodyError)
    requires LineOf(utf8, s, ending, []) == Got(text, after) && HeaderOf(text) == Size(n) && n > 0
    requires |body| <= 2_097_152
    ensures DataFails(after, ending, |body|, n, e) ==> Decoded(utf8, s, ending, body) == Err(e)
    ensures Decoded(utf8, s, ending, body) == Err(e) && !DataFails(after, ending, |body|, n, e) ==>
              |body| + n <= 2_097_152 && n + 2 <= |after| && after[n..n + 2] == CRLF
  {
    hide LineOf;
    hide HeaderOf;
    hide Trailers;
    hide CrLf;
    if n <= |after| {
      CrLfIs(after, n, ending);
    }
  }

  lemma HereFails(utf8: seq<byte> -> bool, s: seq<byte>, ending: Ending, body: seq<byte>, e: BodyError)
    requires FailsHere(utf8, s, ending, |body|, e) && |body| <= 2_097_152
    ensures Decoded(utf8, s, ending, body) == Err(e)
  {
    hide LineFails;
    hide Arrives;
    hide LeadsTo;
    hide Trailers;
    hide HeaderOf;
    if LineFails(utf8, s, ending, e) {
      LineFailsExactly(utf8, s, ending, e);
    } else {
      hide Decoded;
      var raw, after :| ArrivesAndLeads(utf8, s, ending, |body|, e, raw, after);
      FirstArrives(utf8, raw, after, ending);
      LineDecides(utf8, StripCr(raw), s, after, ending, body, e);
    }
  }

  lemma {:induction false} PiecesThenFail(utf8: seq<byte> -> bool, s: seq<byte>, ending: Ending, body: seq<byte>,
      e: BodyError, ps: seq<Piece>, rest: seq<byte>)
    requires FailsAfter(utf8, s, ending, |body|, e, ps, rest)
    ensures Decoded(utf8, s, ending, body) == Err(e)
    decreases |ps|
  {
    hide Decoded;
    hide PieceOk;
    hide PieceData;
    hide FailsHere;
    if ps == [] {
      assert s == rest;
      HereFails(utf8, s, ending, body, e);
    } else {
      var more := PiecesBytes(ps[1..]) + rest;
      Regroup(PieceBytes(ps[0]), PiecesBytes(ps[1..]), rest);
      PieceReads(utf8, ps[0], more, ending, body);
      PiecesThenFail(utf8, more, ending, body + PieceData(ps[0]), e, ps[1..], rest);
    }
  }

  lemma FailsLater(utf8: seq<byte> -> bool, p: Piece, s: seq<byte>, ending: Ending, k: nat, e: BodyError,
      ps: seq<Piece>, rest: seq<byte>)
    requires PieceOk(utf8, p) && FailsAfter(utf8, s, ending, k + |PieceData(p)|, e, ps, rest)
    ensures FailsAfter(utf8, PieceBytes(p) + s, ending, k, e, [p] + ps, rest)
  {
    hide PieceOk;
    hide PieceBytes;
    hide FailsHere;
    assert ([p] + ps)[1..] == ps;
    Regroup(PieceBytes(p), PiecesBytes(ps), rest);
  }

  lemma FailsFirst(utf8: seq<byte> -> bool, s: seq<byte>, ending: Ending, k: nat, e: BodyError)
    requires FailsHere(utf8, s, ending, k, e) && k <= 2_097_152
    ensures FailsAfter(utf8, s, ending, k, e, [], s)
  {
    hide FailsHere;
    assert s == [] + s;
  }

  /** A whole chunk in front of the stream. */
  lemma PartGoesOn(utf8: seq<byte> -> bool, s: seq<byte>, raw: seq<byte>, after: seq<byte>, n: u64, ending: Ending,
      body: seq<byte>)
    requires Arrives(utf8, raw) && s == raw + [LF] + after && HeaderOf(StripCr(raw)) == Size(n) && n > 0
    requires |body| + n <= 2_097_152 && n + 2 <= |after| && after[n..n + 2] == CRLF
    ensures
      var p, next := Part(raw, after[..n]), after[n + 2..];
      && PieceOk(utf8, p) && s == PieceBytes(p) + next && PieceData(p) == after[..n]
      && Decoded(utf8, s, ending, body) == Decoded(utf8, next, ending, body + after[..n])
  {
    hide Arrives;
    hide HeaderOf;
    hide Decoded;
    hide SaysSize;
    var p, next := Part(raw, after[..n]), after[n + 2..];
    SizeExactly(StripCr(raw), n);
    assert after == after[..n] + CRLF + next;
    PartSplits(raw, after[..n], next);
    PieceReads(utf8, p, next, ending, body);
  }

  lemma {:induction false} FailedFrames(utf8: seq<byte> -> bool, s: seq<byte>, ending: Ending, body: seq<byte>,
      e: BodyError)
    returns (ps: seq<Piece>, rest: seq<byte>)
    requires Decoded(utf8, s, ending, body) == Err(e) && |body| <= 2_097_152
    ensures FailsAfter(utf8, s, ending, |body|, e, ps, rest)
    decreases |s|
  {
    hide Arrives;
    hide HeaderOf;
    hide SaysSize;
    hide Trailers;
    hide LeadsTo;
    hide LineFails;
    hide FailsAfter;
    hide FailsHere;
    if LineOf(utf8, s, ending, []).Failed? {
      LineFailsExactly(utf8, s, ending, e);
      LineFailsHere(utf8, s, ending, |body|, e);
      FailsFirst(utf8, s, ending, |body|, e);
      ps, rest := [], s;
    } else {
      var raw := FirstArrived(utf8, s, ending);
      var text, after := LineOf(utf8, s, ending, []).value, LineOf(utf8, s, ending, []).rest;
      hide LineOf;
      LineDecides(utf8, text, s, after, ending, body, e);
      if LeadsTo(utf8, text, after, ending, |body|, e) {
        LeadsHere(utf8, s, ending, |body|, e, raw, after);
        FailsFirst(utf8, s, ending, |body|, e);
        ps, rest := [], s;
      } else if HeaderOf(text) == BlankLine {
        BlankIsSpaces(text);
        ps, rest := FailedFrames(utf8, after, ending, body, e);
        FailsLater(utf8, Skipped(raw), after, ending, |body|, e, ps, rest);
        ps := [Skipped(raw)] + ps;
      } else {
        var n: u64 :| n > 0 && HeaderOf(text) == Size(n) && |body| + n <= 2_097_152 && n + 2 <= |after| &&
          after[n..n + 2] == CRLF;
        var p, next := Part(raw, after[..n]), after[n + 2..];
        PartGoesOn(utf8, s, raw, after, n, ending, body);
        hide Decoded;
        ps, rest := FailedFrames(utf8, next, ending, body + after[..n], e);
        FailsLater(utf8, p, next, ending, |body|, e, ps, rest);
        ps := [p] + ps;
      }
    }
  }

  lemma LineFailsHere(utf8: seq<byte> -> bool, s: seq<byte>, ending: Ending, k: nat, e: BodyError)
    requires LineFails(utf8, s, ending, e)
    ensures FailsHere(utf8, s, ending, k, e)
  {
  }

  lemma LeadsHere(utf8: seq<byte> -> bool, s: seq<byte>, ending: Ending, k: nat, e: BodyError, raw: seq<byte>,
      after: seq<byte>)
    requires ArrivesAndLeads(utf8, s, ending, k, e, raw, after)
    ensures FailsHere(utf8, s, ending, k, e)
  {
  }

  /**
   * Exactly which streams are refused with which error: after whole pieces within the limit a line does not arrive or
   * is neither blank nor a size, a trailer does not arrive, the data would pass the limit, is cut short, or is not
   * closed by CRLF. With `DecodedExactly` this says of every stream what becomes of it.
   */
  lemma RefusedExactly(utf8: seq<byte> -> bool, s: seq<byte>, ending: Ending, e: BodyError)
    ensures Decoded(utf8, s, ending, []) == Err(e) <==> exists ps, rest :: FailsAfter(utf8, s, ending, 0, e, ps, rest)
  {
    hide Decoded;
    hide FailsAfter;
    if Decoded(utf8, s, ending, []) == Err(e) {
      var ps, rest := FailedFrames(utf8, s, ending, [], e);
    }
    if ps, rest :| FailsAfter(utf8, s, ending, 0, e, ps, rest) {
      PiecesThenFail(utf8, s, ending, [], e, ps, rest);
    }
  }

  // ---------------------------------------------------------------- an example, byte by byte

  /** Three letters in one chunk, its size followed by an extension. */
  lemma LettersDecode(utf8: seq<byte> -> bool, a: byte, b: byte, c: byte, rest: seq<byte>, ending: Ending)
    requires utf8([51, 59, 120]) && utf8([48]) && utf8([])
    ensures Decoded(utf8, [51, 59, 120] + [13, 10] + ([a, b, c] + [13, 10]) + ([48] + [13, 10] + [13, 10]) + rest,
                    ending, []) == Ok([a, b, c])
  {
    var chunk := Chunk(SizeText([], false, [51], [], [59, 120]), [a, b, c]);
    var last := Finish(SizeText([], false, [48], [], []), []);
    DigitsAre();
    assert TrimStart([]) == [] && TrimEnd([]) == [];
    assert Line(chunk.size) == [51, 59, 120] && Line(last.size) == [48];
    assert [chunk][1..] == [];
    var framed := FramedChunk(chunk);
    assert FramedChunks([chunk]) == framed + [] == framed;
    assert Data([chunk]) == [a, b, c] + [] && [] + Data([chunk]) == [a, b, c];
    FramedDecodes(utf8, [chunk], last, rest, ending, []);
  }

  lemma DigitsAre()
    ensures HexText([51]) && HexValue([51]) == 3 && HexText([48]) && HexValue([48]) == 0
  {
    assert [51][..0] == [] && [48][..0] == [];
    assert HexValue([]) == 0;
  }
}
