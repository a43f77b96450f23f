/** Exactly which byte streams decode to a body, and to which. */
module ChunkedStreams {
  import opened Wrappers
  import opened Bytes
  import opened ChunkedBody

  // ---------------------------------------------------------------- white space

  /** A white space character is the same one from both ends, whatever is around it. */
  lemma SpaceIsLocal(a: seq<byte>, b: seq<byte>)
    ensures SpaceAtStart(a) > 0 ==> SpaceAtStart(a + b) == SpaceAtStart(a)
    ensures SpaceAtEnd(b) > 0 ==> SpaceAtEnd(a + b) == SpaceAtEnd(b)
    ensures SpaceAtStart(a[..SpaceAtStart(a)]) == SpaceAtStart(a) == SpaceAtEnd(a[..SpaceAtStart(a)])
    ensures SpaceAtEnd(b[|b| - SpaceAtEnd(b)..]) == SpaceAtEnd(b) == SpaceAtStart(b[|b| - SpaceAtEnd(b)..])
  {
  }

  /** White space in front is trimmed away with whatever follows it. */
  lemma {:induction false} TrimStartThrough(a: seq<byte>, b: seq<byte>)
    requires TrimStart(a) == []
    ensures TrimStart(a + b) == TrimStart(b)
    decreases |a|
  {
    hide SpaceAtStart;
    hide SpaceAtEnd;
    if a == [] {
      assert a + b == b;
    } else {
      var n := SpaceAtStart(a);
      SpaceIsLocal(a, b);
      assert (a + b)[n..] == a[n..] + b;
      TrimStartThrough(a[n..], b);
    }
  }

  lemma {:induction false} TrimEndThrough(a: seq<byte>, b: seq<byte>)
    requires TrimEnd(b) == []
    ensures TrimEnd(a + b) == TrimEnd(a)
    decreases |b|
  {
    hide SpaceAtStart;
    hide SpaceAtEnd;
    if b == [] {
      assert a + b == a;
    } else {
      var n := SpaceAtEnd(b);
      SpaceIsLocal(a, b);
      assert (a + b)[..|a + b| - n] == a + b[..|b| - n];
      TrimEndThrough(a, b[..|b| - n]);
    }
  }

  lemma TrimOneSpace(w: seq<byte>)
    requires SpaceAtStart(w) == |w| == SpaceAtEnd(w)
    ensures TrimStart(w) == [] && TrimEnd(w) == []
  {
  }

  /** What trimming the start takes away is white space. */
  lemma {:induction false} TrimStartSplits(s: seq<byte>) returns (lead: seq<byte>)
    ensures s == lead + TrimStart(s) && TrimStart(lead) == [] && SpaceAtStart(TrimStart(s)) == 0
    decreases |s|
  {
    hide SpaceAtStart;
    hide SpaceAtEnd;
    var n := SpaceAtStart(s);
    if n == 0 {
      lead := [];
      assert s == [] + s;
    } else {
      assert TrimStart(s) == TrimStart(s[n..]);
      hide TrimStart;
      var rest := TrimStartSplits(s[n..]);
      lead := s[..n] + rest;
      SpaceIsLocal(s, []);
      TrimOneSpace(s[..n]);
      TrimStartThrough(s[..n], rest);
      assert s == s[..n] + s[n..];
      Regroup(s[..n], rest, TrimStart(s));
    }
  }

  lemma {:induction false} TrimEndSplits(s: seq<byte>) returns (gap: seq<byte>)
    ensures s == TrimEnd(s) + gap && TrimEnd(gap) == []
    decreases |s|
  {
    hide SpaceAtStart;
    hide SpaceAtEnd;
    var n := SpaceAtEnd(s);
    if n == 0 {
      gap := [];
      assert s == s + [];
    } else {
      var rest := TrimEndSplits(s[..|s| - n]);
      gap := rest + s[|s| - n..];
      SpaceIsLocal([], s);
      TrimOneSpace(s[|s| - n..]);
      TrimEndThrough(rest, s[|s| - n..]);
      assert s == s[..|s| - n] + s[|s| - n..];
    }
  }

  /** White space is white space from either end. */
  lemma {:induction false} SpacesFromEitherEnd(s: seq<byte>)
    ensures TrimStart(s) == [] <==> TrimEnd(s) == []
    decreases |s|
  {
    hide SpaceAtStart;
    hide SpaceAtEnd;
    if SpaceAtStart(s) > 0 {
      var n := SpaceAtStart(s);
      SpaceIsLocal(s, []);
      TrimOneSpace(s[..n]);
      SpacesFromEitherEnd(s[n..]);
      assert s == s[..n] + s[n..];
      if TrimEnd(s[n..]) == [] {
        TrimEndThrough(s[..n], s[n..]);
      }
    }
    if SpaceAtEnd(s) > 0 {
      var k := |s| - SpaceAtEnd(s);
      SpaceIsLocal([], s);
      TrimOneSpace(s[k..]);
      SpacesFromEitherEnd(s[..k]);
      assert s == s[..k] + s[k..];
      if TrimStart(s[..k]) == [] {
        TrimStartThrough(s[..k], s[k..]);
      }
    }
  }

  lemma {:induction false} BeforeExtensionSplits(s: seq<byte>) returns (ext: seq<byte>)
    ensures s == BeforeExtension(s) + ext && (ext == [] || ext[0] == SEMICOLON)
  {
    if s == [] || s[0] == SEMICOLON {
      ext := s;
    } else {
      ext := BeforeExtensionSplits(s[1..]);
    }
  }

  // ---------------------------------------------------------------- what a size line may look like

  ghost predicate SaysSize(line: seq<byte>, n: nat) { exists z :: Shape(z, n) && Line(z) == line }

  lemma BlankIsSpaces(line: seq<byte>)
    ensures HeaderOf(line) == BlankLine <==> Spaces(line)
    ensures Trim(line) == [] <==> Spaces(line)
  {
    var lead := TrimStartSplits(line);
    SpacesFromEitherEnd(line);
    SpacesFromEitherEnd(TrimStart(line));
  }

  /** A text with neither white space nor an extension around its core. */
  lemma CoreSplits(text: seq<byte>) returns (gap: seq<byte>, ext: seq<byte>)
    requires SpaceAtStart(text) == 0
    ensures
      var core := Trim(BeforeExtension(TrimEnd(text)));
      && text == core + gap + ext && Spaces(gap) && (ext == [] || ext[0] == SEMICOLON)
  {
    hide SpaceAtStart;
    hide SpaceAtEnd;
    hide BeforeExtension;
    var trail := TrimEndSplits(text);
    var trimmed := TrimEnd(text);
    var cut := BeforeExtensionSplits(trimmed);
    var before := BeforeExtension(trimmed);
    Regroup(before, cut, trail);
    SpaceIsLocal(before, cut + trail);
    var after := TrimEndSplits(before);
    hide TrimEnd;
    if cut == [] {
      gap, ext := after + trail, [];
      TrimEndThrough(after, trail);
    } else {
      gap, ext := after, cut + trail;
    }
    SpacesFromEitherEnd(gap);
    SplitsJoin(TrimEnd(before), after, cut, trail);
  }

  lemma SplitsJoin(core: seq<byte>, gap: seq<byte>, ext: seq<byte>, trail: seq<byte>)
    ensures core + gap + ext + trail == core + gap + (ext + trail)
    ensures ext == [] ==> core + gap + ext + trail == core + (gap + trail) + []
  {
  }

  /** The digits of a line that says a size, and what is around them. */
  lemma SizeLineSplits(line: seq<byte>, n: u64) returns (z: SizeText)
    requires HeaderOf(line) == Size(n)
    ensures Shape(z, n) && Line(z) == line
  {
    hide SpaceAtStart;
    hide TrimStart;
    hide TrimEnd;
    hide HexValue;
    hide BeforeExtension;
    var lead := TrimStartSplits(line);
    SpacesFromEitherEnd(lead);
    var text := TrimStart(line);
    var gap, ext := CoreSplits(text);
    var core := Trim(BeforeExtension(TrimEnd(text)));
    var plus := |core| >= 2 && core[0] == 0x2B;
    var digits := if plus then core[1..] else core;
    z := SizeText(lead, plus, digits, gap, ext);
    assert Signed(z) == core;
  }

  /** A line says size `n` exactly when it is digits of that value within white space and before an extension. */
  lemma SizeExactly(line: seq<byte>, n: u64)
    ensures HeaderOf(line) == Size(n) <==> SaysSize(line, n)
  {
    hide HeaderOf;
    hide Shape;
    if HeaderOf(line) == Size(n) {
      var z := SizeLineSplits(line, n);
    }
    if z :| Shape(z, n) && Line(z) == line {
      SizeLineMeans(z, n);
    }
  }

  // ---------------------------------------------------------------- lines as they arrive

  /** The bytes of a line before its line feed; one carriage return at their end is not part of the text. */
  predicate Arrives(utf8: seq<byte> -> bool, raw: seq<byte>) {
    LF !in raw && |raw| <= 1024 && utf8(StripCr(raw))
  }

  lemma {:induction false} LineArrives(utf8: seq<byte> -> bool, sofar: seq<byte>, raw: seq<byte>, rest: seq<byte>,
      ending: Ending)
    requires Arrives(utf8, sofar + raw)
    ensures LineOf(utf8, raw + [LF] + rest, ending, sofar) == Got(StripCr(sofar + raw), rest)
    decreases |raw|
  {
    var s := raw + [LF] + rest;
    if raw == [] {
      assert s[1..] == rest && sofar + raw == sofar;
    } else {
      assert s[1..] == raw[1..] + [LF] + rest;
      assert sofar + [raw[0]] + raw[1..] == sofar + raw;
      assert raw[0] in sofar + raw;
      LineArrives(utf8, sofar + [raw[0]], raw[1..], rest, ending);
    }
  }

  lemma {:induction false} LineArrived(utf8: seq<byte> -> bool, sofar: seq<byte>, s: seq<byte>, ending: Ending)
    returns (raw: seq<byte>)
    requires LineOf(utf8, s, ending, sofar).Got? && LF !in sofar && |sofar| <= 1024
    ensures Arrives(utf8, sofar + raw) && s == raw + [LF] + LineOf(utf8, s, ending, sofar).rest
    ensures LineOf(utf8, s, ending, sofar).value == StripCr(sofar + raw)
    decreases |s|
  {
    if s[0] == LF {
      raw := [];
      assert sofar + raw == sofar;
    } else {
      var more := LineArrived(utf8, sofar + [s[0]], s[1..], ending);
      raw := [s[0]] + more;
      assert sofar + [s[0]] + more == sofar + raw;
    }
  }

  /** A line is read from a stream exactly when it arrives at its front, ended by CRLF or by a line feed alone. */
  lemma LineExactly(utf8: seq<byte> -> bool, s: seq<byte>, ending: Ending, line: seq<byte>, rest: seq<byte>)
    ensures LineOf(utf8, s, ending, []) == Got(line, rest) <==>
            exists raw :: Arrives(utf8, raw) && line == StripCr(raw) && s == raw + [LF] + rest
  {
    hide LineOf;
    if LineOf(utf8, s, ending, []) == Got(line, rest) {
      var raw := LineArrived(utf8, [], s, ending);
      assert [] + raw == raw;
    }
    if raw :| Arrives(utf8, raw) && line == StripCr(raw) && s == raw + [LF] + rest {
      assert [] + raw == raw;
      LineArrives(utf8, [], raw, rest, ending);
    }
  }

  // ---------------------------------------------------------------- streams that decode

  /** What may come before the last chunk: a blank line, which is skipped, or a size line with that much data. */
  datatype Piece = Skipped(raw: seq<byte>) | Part(raw: seq<byte>, data: seq<byte>)

  function PieceBytes(p: Piece): seq<byte> {
    match p
    case Skipped(raw) => raw + [LF]
    case Part(raw, data) => raw + [LF] + (data + CRLF)
  }

  ghost predicate PieceOk(utf8: seq<byte> -> bool, p: Piece) {
    && Arrives(utf8, p.raw)
    && match p
       case Skipped(raw) => Spaces(StripCr(raw))
       case Part(raw, data) => data != [] && SaysSize(StripCr(raw), |data|)
  }

  function PiecesBytes(ps: seq<Piece>): seq<byte> {
    if ps == [] then [] else PieceBytes(ps[0]) + PiecesBytes(ps[1..])
  }

  ghost predicate PiecesOk(utf8: seq<byte> -> bool, ps: seq<Piece>) {
    forall i :: 0 <= i < |ps| ==> PieceOk(utf8, ps[i])
  }

  function PieceData(p: Piece): seq<byte> { if p.Part? then p.data else [] }

  function Carried(ps: seq<Piece>): seq<byte> {
    if ps == [] then [] else PieceData(ps[0]) + Carried(ps[1..])
  }

  /** Trailer lines, none of them blank, and the blank line after them. */
  datatype Tail = Tail(trailers: seq<seq<byte>>, blank: seq<byte>)

  function TailBytes(t: Tail): seq<byte>
    decreases |t.trailers|
  {
    if t.trailers == [] then t.blank + [LF]
    else t.trailers[0] + [LF] + TailBytes(Tail(t.trailers[1..], t.blank))
  }

  predicate TailOk(utf8: seq<byte> -> bool, t: Tail) {
    && Arrives(utf8, t.blank) && Spaces(StripCr(t.blank))
    && forall i :: 0 <= i < |t.trailers| ==> Arrives(utf8, t.trailers[i]) && !Spaces(StripCr(t.trailers[i]))
  }

  /** The stream is these pieces, a line that says size zero, trailers, and anything. */
  ghost predicate Framing(utf8: seq<byte> -> bool, s: seq<byte>, ps: seq<Piece>, last: seq<byte>, t: Tail,
      rest: seq<byte>)
  {
    && PiecesOk(utf8, ps) && Arrives(utf8, last) && SaysSize(StripCr(last), 0) && TailOk(utf8, t)
    && s == PiecesBytes(ps) + (last + [LF] + (TailBytes(t) + rest))
  }

  lemma {:induction false} TailReads(utf8: seq<byte> -> bool, t: Tail, rest: seq<byte>, ending: Ending)
    requires TailOk(utf8, t)
    ensures Trailers(utf8, TailBytes(t) + rest, ending) == Got((), rest)
    decreases |t.trailers|
  {
    hide LineOf;
    hide Arrives;
    if t.trailers == [] {
      FirstArrives(utf8, t.blank, rest, ending);
      BlankIsSpaces(StripCr(t.blank));
    } else {
      var more := Tail(t.trailers[1..], t.blank);
      Regroup(t.trailers[0] + [LF], TailBytes(more), rest);
      FirstArrives(utf8, t.trailers[0], TailBytes(more) + rest, ending);
      BlankIsSpaces(StripCr(t.trailers[0]));
      TailReads(utf8, more, rest, ending);
    }
  }

  lemma FirstArrives(utf8: seq<byte> -> bool, raw: seq<byte>, rest: seq<byte>, ending: Ending)
    requires Arrives(utf8, raw)
    ensures LineOf(utf8, raw + [LF] + rest, ending, []) == Got(StripCr(raw), rest)
  {
    assert [] + raw == raw;
    LineArrives(utf8, [], raw, rest, ending);
  }

  lemma FirstArrived(utf8: seq<byte> -> bool, s: seq<byte>, ending: Ending) returns (raw: seq<byte>)
    requires LineOf(utf8, s, ending, []).Got?
    ensures Arrives(utf8, raw) && s == raw + [LF] + LineOf(utf8, s, ending, []).rest
    ensures LineOf(utf8, s, ending, []).value == StripCr(raw)
  {
    raw := LineArrived(utf8, [], s, ending);
    assert [] + raw == raw;
  }

  lemma {:induction false} TailRead(utf8: seq<byte> -> bool, s: seq<byte>, ending: Ending) returns (t: Tail)
    requires Trailers(utf8, s, ending).Got?
    ensures TailOk(utf8, t) && s == TailBytes(t) + Trailers(utf8, s, ending).rest
    decreases |s|
  {
    hide Arrives;
    var raw := FirstArrived(utf8, s, ending);
    var rest := LineOf(utf8, s, ending, []).rest;
    hide LineOf;
    BlankIsSpaces(StripCr(raw));
    if Trim(StripCr(raw)) == [] {
      t := Tail([], raw);
    } else {
      var more := TailRead(utf8, rest, ending);
      t := Tail([raw] + more.trailers, more.blank);
      assert t.trailers[1..] == more.trailers;
      Regroup(raw + [LF], TailBytes(more), Trailers(utf8, rest, ending).rest);
    }
  }

  /** One piece in front, as long as the body it leads to is within the limit. */
  lemma PieceReads(utf8: seq<byte> -> bool, p: Piece, rest: seq<byte>, ending: Ending, body: seq<byte>)
    requires PieceOk(utf8, p) && |body| + |PieceData(p)| <= 2_097_152
    ensures Decoded(utf8, PieceBytes(p) + rest, ending, body) == Decoded(utf8, rest, ending, body + PieceData(p))
  {
    hide LineOf;
    hide HeaderOf;
    hide Arrives;
    hide SaysSize;
    hide CrLf;
    match p
    case Skipped(raw) =>
      FirstArrives(utf8, raw, rest, ending);
      BlankIsSpaces(StripCr(raw));
      assert body + [] == body;
    case Part(raw, data) =>
      var after := data + (CRLF + rest);
      Regroup(raw + [LF], data + CRLF, rest);
      Regroup(data, CRLF, rest);
      FirstArrives(utf8, raw, after, ending);
      SizeExactly(StripCr(raw), |data|);
      DataThenCrLf(data, rest, ending);
  }

  lemma LastReads(utf8: seq<byte> -> bool, last: seq<byte>, t: Tail, rest: seq<byte>, ending: Ending, body: seq<byte>)
    requires Arrives(utf8, last) && SaysSize(StripCr(last), 0) && TailOk(utf8, t)
    ensures Decoded(utf8, last + [LF] + (TailBytes(t) + rest), ending, body) == Ok(body)
  {
    hide LineOf;
    hide HeaderOf;
    hide Trailers;
    FirstArrives(utf8, last, TailBytes(t) + rest, ending);
    SizeExactly(StripCr(last), 0);
    TailReads(utf8, t, rest, ending);
  }

  lemma {:induction false} FramingDecodes(utf8: seq<byte> -> bool, s: seq<byte>, ps: seq<Piece>, last: seq<byte>,
      t: Tail, rest: seq<byte>, ending: Ending, body: seq<byte>)
    requires Framing(utf8, s, ps, last, t, rest) && |body| + |Carried(ps)| <= 2_097_152
    ensures Decoded(utf8, s, ending, body) == Ok(body + Carried(ps))
    decreases |ps|
  {
    hide Decoded;
    hide PieceOk;
    hide PieceData;
    var tail := last + [LF] + (TailBytes(t) + rest);
    if ps == [] {
      assert [] + tail == tail && body + [] == body;
      LastReads(utf8, last, t, rest, ending, body);
    } else {
      var more := PiecesBytes(ps[1..]) + tail;
      Regroup(PieceBytes(ps[0]), PiecesBytes(ps[1..]), tail);
      PieceReads(utf8, ps[0], more, ending, body);
      FramingDecodes(utf8, more, ps[1..], last, t, rest, ending, body + PieceData(ps[0]));
      Regroup(body, PieceData(ps[0]), Carried(ps[1..]));
    }
  }

  lemma FramingGrows(utf8: seq<byte> -> bool, p: Piece, s: seq<byte>, ps: seq<Piece>, last: seq<byte>, t: Tail,
      rest: seq<byte>)
    requires PieceOk(utf8, p) && Framing(utf8, s, ps, last, t, rest)
    ensures Framing(utf8, PieceBytes(p) + s, [p] + ps, last, t, rest)
    ensures Carried([p] + ps) == PieceData(p) + Carried(ps)
  {
    hide PieceOk;
    hide PieceBytes;
    hide PieceData;
    hide TailOk;
    hide TailBytes;
    hide Arrives;
    hide SaysSize;
    assert ([p] + ps)[1..] == ps;
    Regroup(PieceBytes(p), PiecesBytes(ps), last + [LF] + (TailBytes(t) + rest));
  }

  lemma {:induction false} DecodedFrames(utf8: seq<byte> -> bool, s: seq<byte>, ending: Ending, body: seq<byte>)
    returns (ps: seq<Piece>, last: seq<byte>, t: Tail, rest: seq<byte>)
    requires Decoded(utf8, s, ending, body).Ok? && |body| <= 2_097_152
    ensures Framing(utf8, s, ps, last, t, rest)
    ensures Decoded(utf8, s, ending, body).value == body + Carried(ps)
    ensures |Decoded(utf8, s, ending, body).value| <= 2_097_152
    decreases |s|
  {
    hide Arrives;
    hide HeaderOf;
    hide SaysSize;
    hide Framing;
    hide Carried;
    var raw := FirstArrived(utf8, s, ending);
    var line, after := LineOf(utf8, s, ending, []).value, LineOf(utf8, s, ending, []).rest;
    hide LineOf;
    match HeaderOf(line)
    case BlankLine =>
      BlankIsSpaces(line);
      ps, last, t, rest := DecodedFrames(utf8, after, ending, body);
      FramingGrows(utf8, Skipped(raw), after, ps, last, t, rest);
      ps := [Skipped(raw)] + ps;
      assert [] + Carried(ps[1..]) == Carried(ps[1..]);
    case Size(n) =>
      SizeExactly(line, n);
      if n == 0 {
        ps, last := [], raw;
        t := TailRead(utf8, after, ending);
        rest := Trailers(utf8, after, ending).rest;
        LastFrames(utf8, s, body, last, t, rest);
      } else {
        var data, next := after[..n], CrLf(after[n..], ending).rest;
        assert after == data + CRLF + next;
        ps, last, t, rest := DecodedFrames(utf8, next, ending, body + data);
        var p := Part(raw, data);
        PartSplits(raw, data, next);
        FramingGrows(utf8, p, next, ps, last, t, rest);
        Regroup(body, data, Carried(ps));
        ps := [p] + ps;
      }
    case BadSize =>
  }

  lemma LastFrames(utf8: seq<byte> -> bool, s: seq<byte>, body: seq<byte>, last: seq<byte>, t: Tail, rest: seq<byte>)
    requires Arrives(utf8, last) && SaysSize(StripCr(last), 0) && TailOk(utf8, t)
    requires s == last + [LF] + (TailBytes(t) + rest)
    ensures Framing(utf8, s, [], last, t, rest) && body == body + Carried([])
  {
    assert s == [] + s;
  }

  lemma PartSplits(raw: seq<byte>, data: seq<byte>, next: seq<byte>)
    ensures raw + [LF] + (data + CRLF + next) == PieceBytes(Part(raw, data)) + next
  {
    Regroup(raw + [LF], data + CRLF, next);
  }

  /**
   * Exactly which streams decode: a body is returned if and only if the stream starts with blank lines and chunks
   * whose data are that body, a line that says size zero, trailers and a blank line, each line ended by CRLF or by a
   * line feed alone, and the body is within the limit. Whatever else the stream holds comes after that.
   */
  lemma DecodedExactly(utf8: seq<byte> -> bool, s: seq<byte>, ending: Ending, body: seq<byte>)
    ensures Decoded(utf8, s, ending, []) == Ok(body) <==>
            |body| <= 2_097_152 &&
              exists ps, last, t, rest :: Framing(utf8, s, ps, last, t, rest) && body == Carried(ps)
  {
    hide Decoded;
    hide Framing;
    hide Carried;
    if Decoded(utf8, s, ending, []) == Ok(body) {
      var ps, last, t, rest := DecodedFrames(utf8, s, ending, []);
      assert [] + Carried(ps) == Carried(ps);
    }
    if |body| <= 2_097_152 {
      if ps, last, t, rest :| Framing(utf8, s, ps, last, t, rest) && body == Carried(ps) {
        FramingDecodes(utf8, s, ps, last, t, rest, ending, []);
        assert [] + Carried(ps) == Carried(ps);
      }
    }
  }
}
