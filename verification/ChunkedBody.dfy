/**
 * Reading a chunked request body from a connection. The connection is the bytes its successive reads will deliver;
 * the check that a line is valid UTF-8 is a parameter.
 */
module ChunkedBody {
  import opened Wrappers
  import opened Bytes

  const MAX_BODY_BYTES: nat := 2 * 1024 * 1024
  const MAX_LINE_BYTES: nat := 1024
  const READ_BYTES: nat := 1024
  const CR: byte := 13
  const LF: byte := 10
  const SEMICOLON: byte := 0x3B

  /** What a read finds once everything has been delivered. */
  datatype Ending = Closed | Broken

  datatype BodyError =
    | ReadError
    | IncompleteBody
    | MalformedChunk
    | PayloadTooLarge
    | SizeOverflow // the size sum exceeds 64 bits: no error of the source, which stops the process here

  function EndError(ending: Ending): BodyError {
    match ending
    case Closed => IncompleteBody
    case Broken => ReadError
  }

  // ---------------------------------------------------------------- text

  predicate AsciiSpace(b: byte) { 9 <= b <= 13 || b == 32 }

  /** A three-byte white space character. */
  predicate WideSpace(a: byte, b: byte, c: byte) {
    || (a == 0xE1 && b == 0x9A && c == 0x80)
    || (a == 0xE2 && b == 0x80 && (0x80 <= c <= 0x8A || c == 0xA8 || c == 0xA9 || c == 0xAF))
    || (a == 0xE2 && b == 0x81 && c == 0x9F)
    || (a == 0xE3 && b == 0x80 && c == 0x80)
  }

  /** Length of the white space character the text starts with, or 0. */
  function SpaceAtStart(s: seq<byte>): (n: nat)
    ensures n <= |s|
  {
    if |s| >= 1 && AsciiSpace(s[0]) then 1
    else if |s| >= 2 && s[0] == 0xC2 && (s[1] == 0x85 || s[1] == 0xA0) then 2
    else if |s| >= 3 && WideSpace(s[0], s[1], s[2]) then 3
    else 0
  }

  /** Length of the white space character the text ends with, or 0. */
  function SpaceAtEnd(s: seq<byte>): (n: nat)
    ensures n <= |s|
  {
    var k := |s|;
    if k >= 1 && AsciiSpace(s[k - 1]) then 1
    else if k >= 2 && s[k - 2] == 0xC2 && (s[k - 1] == 0x85 || s[k - 1] == 0xA0) then 2
    else if k >= 3 && WideSpace(s[k - 3], s[k - 2], s[k - 1]) then 3
    else 0
  }

  function TrimStart(s: seq<byte>): (r: seq<byte>)
    ensures |r| <= |s|
  {
    if SpaceAtStart(s) == 0 then s else TrimStart(s[SpaceAtStart(s)..])
  }

  function TrimEnd(s: seq<byte>): (r: seq<byte>)
    ensures r <= s
    decreases |s|
  {
    if SpaceAtEnd(s) == 0 then s else TrimEnd(s[..|s| - SpaceAtEnd(s)])
  }

  function Trim(s: seq<byte>): seq<byte> { TrimEnd(TrimStart(s)) }

  /** The text before the first semicolon. */
  function BeforeExtension(s: seq<byte>): (r: seq<byte>)
    ensures |r| <= |s|
  {
    if s == [] || s[0] == SEMICOLON then [] else [s[0]] + BeforeExtension(s[1..])
  }

  predicate HexDigit(b: byte) { 0x30 <= b <= 0x39 || 0x41 <= b <= 0x46 || 0x61 <= b <= 0x66 }

  function DigitValue(b: byte): (d: nat)
    requires HexDigit(b)
    ensures d < 16
  {
    if b <= 0x39 then b - 0x30 else if b <= 0x46 then b - 0x41 + 10 else b - 0x61 + 10
  }

  predicate HexText(s: seq<byte>) { forall i :: 0 <= i < |s| ==> HexDigit(s[i]) }

  function HexValue(s: seq<byte>): nat
    requires HexText(s)
  {
    if s == [] then 0 else 16 * HexValue(s[..|s| - 1]) + DigitValue(s[|s| - 1])
  }

  /** `usize::from_str_radix(s, 16)`: an optional plus sign, then digits whose value fits 64 bits. */
  function ParseHex(s: seq<byte>): Option<u64> {
    var digits := if |s| >= 2 && s[0] == 0x2B then s[1..] else s;
    if digits == [] || !HexText(digits) || HexValue(digits) > U64_MAX then None
    else Some(HexValue(digits))
  }

  /** What a chunk header line says. */
  datatype Header = BlankLine | Size(n: u64) | BadSize

  function HeaderOf(line: seq<byte>): Header {
    var trimmed := Trim(line);
    if trimmed == [] then BlankLine
    else match ParseHex(Trim(BeforeExtension(trimmed)))
         case None => BadSize
         case Some(n) => Size(n)
  }

  // ---------------------------------------------------------------- the meaning of the whole byte stream

  datatype Got<T> = Got(value: T, rest: seq<byte>) | Failed(error: BodyError)

  function StripCr(line: seq<byte>): (r: seq<byte>) {
    if line != [] && line[|line| - 1] == CR then line[..|line| - 1] else line
  }

  /** The line at the front of the stream, `sofar` being what has been read of it. */
  function LineOf(utf8: seq<byte> -> bool, s: seq<byte>, ending: Ending, sofar: seq<byte>): (g: Got<seq<byte>>)
    ensures g.Got? ==> |g.rest| < |s|
    decreases |s|
  {
    if s == [] then Failed(EndError(ending))
    else if s[0] == LF then
      if utf8(StripCr(sofar)) then Got(StripCr(sofar), s[1..]) else Failed(MalformedChunk)
    else if |sofar| + 1 > MAX_LINE_BYTES then Failed(MalformedChunk)
    else LineOf(utf8, s[1..], ending, sofar + [s[0]])
  }

  /** Lines up to and including the first blank one. */
  function Trailers(utf8: seq<byte> -> bool, s: seq<byte>, ending: Ending): Got<()>
    decreases |s|
  {
    match LineOf(utf8, s, ending, [])
    case Failed(e) => Failed(e)
    case Got(line, rest) => if Trim(line) == [] then Got((), rest) else Trailers(utf8, rest, ending)
  }

  /** The two bytes after chunk data. */
  function CrLf(s: seq<byte>, ending: Ending): Got<()> {
    if |s| < 2 then Failed(EndError(ending))
    else if s[0] != CR || s[1] != LF then Failed(MalformedChunk)
    else Got((), s[2..])
  }

  /** The body decoded from the stream, `body` being what has been decoded so far. */
  function Decoded(utf8: seq<byte> -> bool, s: seq<byte>, ending: Ending, body: seq<byte>): Result<seq<byte>, BodyError>
    decreases |s|
  {
    match LineOf(utf8, s, ending, [])
    case Failed(e) => Err(e)
    case Got(line, rest) =>
      match HeaderOf(line)
      case BlankLine => Decoded(utf8, rest, ending, body)
      case BadSize => Err(MalformedChunk)
      case Size(n) =>
        if n == 0 then
          match Trailers(utf8, rest, ending)
          case Failed(e) => Err(e)
          case Got(_, _) => Ok(body)
        else if |body| + n > U64_MAX then Err(SizeOverflow)
        else if |body| + n > MAX_BODY_BYTES then Err(PayloadTooLarge)
        else if |rest| < n then Err(EndError(ending))
        else
          match CrLf(rest[n..], ending)
          case Failed(e) => Err(e)
          case Got(_, after) => Decoded(utf8, after, ending, body + rest[..n])
  }

  function Flat(pieces: seq<seq<byte>>): seq<byte> {
    if pieces == [] then [] else pieces[0] + Flat(pieces[1..])
  }

  // ---------------------------------------------------------------- the reader

  class ChunkedReader {
    /** The bytes each coming read delivers; a read never delivers more than fits the scratch buffer. */
    var arrivals: seq<seq<byte>>
    const ending: Ending
    const utf8: seq<byte> -> bool
    var buffer: seq<byte>
    var pos: nat

    ghost predicate Valid()
      reads this
    {
      pos <= |buffer| && forall i :: 0 <= i < |arrivals| ==> 1 <= |arrivals[i]| <= READ_BYTES
    }

    /** Everything not yet consumed, wherever it lies. */
    ghost function Remaining(): seq<byte>
      reads this
      requires Valid()
    {
      buffer[pos..] + Flat(arrivals)
    }

    constructor (arrivals: seq<seq<byte>>, ending: Ending, utf8: seq<byte> -> bool, buffer: seq<byte>)
      requires forall i :: 0 <= i < |arrivals| ==> 1 <= |arrivals[i]| <= READ_BYTES
      ensures Valid() && Remaining() == buffer + Flat(arrivals)
      ensures this.ending == ending && this.utf8 == utf8
    {
      this.arrivals := arrivals;
      this.ending := ending;
      this.utf8 := utf8;
      this.buffer := buffer;
      pos := 0;
    }

    method FillBufferIfNeeded() returns (r: Result<bool, BodyError>)
      requires Valid()
      modifies this
      ensures Valid() && Remaining() == old(Remaining())
      ensures r == Ok(true) ==> pos < |buffer|
      ensures r != Ok(true) ==> Remaining() == [] && r == (if ending == Closed then Ok(false) else Err(ReadError))
    {
      if pos >= |buffer| {
        assert buffer[pos..] == [];
        if arrivals == [] {
          return if ending == Closed then Ok(false) else Err(ReadError);
        }
        buffer := arrivals[0];
        arrivals := arrivals[1..];
        pos := 0;
        assert buffer[0..] == buffer;
      }
      return Ok(true);
    }

    method ReadByte() returns (r: Result<byte, BodyError>)
      requires Valid()
      modifies this
      ensures Valid()
      ensures old(Remaining()) == [] ==> r == Err(EndError(ending)) && Remaining() == []
      ensures old(Remaining()) != [] ==> r == Ok(old(Remaining())[0]) && Remaining() == old(Remaining())[1..]
    {
      var filled := FillBufferIfNeeded();
      if filled.Err? {
        return Err(filled.error);
      }
      if !filled.value {
        return Err(IncompleteBody);
      }
      r := Ok(buffer[pos]);
      assert buffer[pos..] == [buffer[pos]] + buffer[pos + 1..];
      pos := pos + 1;
    }

    method ReadLine() returns (r: Result<seq<byte>, BodyError>)
      requires Valid()
      modifies this
      ensures Valid()
      ensures r.Ok? ==> LineOf(utf8, old(Remaining()), ending, []) == Got(r.value, Remaining())
      ensures r.Err? ==> LineOf(utf8, old(Remaining()), ending, []) == Failed(r.error)
    {
      var lineBytes: seq<byte> := [];
      while true
        invariant Valid()
        invariant LineOf(utf8, Remaining(), ending, lineBytes) == LineOf(utf8, old(Remaining()), ending, [])
        decreases |Remaining()|
      {
        var next := ReadByte();
        if next.Err? {
          return Err(next.error);
        }
        var b := next.value;
        if b == LF {
          var line := lineBytes;
          if line != [] && line[|line| - 1] == CR {
            line := line[..|line| - 1];
          }
          return if utf8(line) then Ok(line) else Err(MalformedChunk);
        }
        lineBytes := lineBytes + [b];
        if |lineBytes| > MAX_LINE_BYTES {
          return Err(MalformedChunk);
        }
      }
    }

    /** Fill `dest` from as many buffers as it takes. */
    method ReadExact(dest: array<byte>) returns (r: Option<BodyError>)
      requires Valid()
      modifies this, dest
      ensures Valid()
      ensures |old(Remaining())| < dest.Length ==> r == Some(EndError(ending))
      ensures |old(Remaining())| >= dest.Length ==>
                r == None && dest[..] == old(Remaining())[..dest.Length] &&
                  Remaining() == old(Remaining())[dest.Length..]
    {
      var offset := 0;
      ghost var start := Remaining();
      assert start[0..] == start;
      while offset < dest.Length
        invariant Valid() && offset <= dest.Length && offset <= |start|
        invariant dest[..offset] == start[..offset] && Remaining() == start[offset..]
        decreases dest.Length - offset
      {
        var filled := FillBufferIfNeeded();
        if filled.Err? {
          return Some(filled.error);
        }
        if !filled.value {
          return Some(IncompleteBody);
        }
        ghost var before := dest[..offset];
        var copied := CopyAvailable(dest, offset);
        StillAt(start, offset, copied);
        assert dest[..offset + copied] == before + start[offset..][..copied];
        offset := offset + copied;
      }
      assert dest[..] == dest[..offset];
      return None;
    }

    /** Copy what the buffer holds, up to the end of `dest`. */
    method CopyAvailable(dest: array<byte>, offset: nat) returns (toCopy: nat)
      requires Valid() && pos < |buffer| && offset < dest.Length
      modifies this`pos, dest
      ensures Valid() && 0 < toCopy && offset + toCopy <= dest.Length
      ensures toCopy <= |old(Remaining())| && Remaining() == old(Remaining())[toCopy..]
      ensures dest[..offset] == old(dest[..offset])
      ensures dest[offset..offset + toCopy] == old(Remaining())[..toCopy]
    {
      hide Flat;
      var avail := |buffer| - pos;
      toCopy := Min(dest.Length - offset, avail);
      CopyInto(dest, offset, buffer[pos..pos + toCopy]);
      TakeAcross(buffer[pos..], Flat(arrivals), toCopy);
      DropAcross(buffer[pos..], Flat(arrivals), toCopy);
      assert buffer[pos..][..toCopy] == buffer[pos..pos + toCopy];
      assert buffer[pos..][toCopy..] == buffer[pos + toCopy..];
      pos := pos + toCopy;
    }
  }

  lemma StillAt(s: seq<byte>, offset: nat, n: nat)
    requires offset + n <= |s|
    ensures s[offset..][n..] == s[offset + n..] && s[..offset + n] == s[..offset] + s[offset..][..n]
  {
  }

  /** `copy_from_slice` into part of a buffer. */
  method CopyInto(dest: array<byte>, offset: nat, src: seq<byte>)
    requires offset + |src| <= dest.Length
    modifies dest
    ensures dest[..offset] == old(dest[..offset]) && dest[offset..offset + |src|] == src
  {
    for i := 0 to |src|
      invariant dest[..offset] == old(dest[..offset])
      invariant dest[offset..offset + i] == src[..i]
    {
      dest[offset + i] := src[i];
      assert dest[offset..offset + i + 1] == dest[offset..offset + i] + [src[i]];
    }
  }

  /** The result is a function of the whole byte stream, however it is split into the initial buffer and reads. */
  method ReadChunkedBody(arrivals: seq<seq<byte>>, ending: Ending, utf8: seq<byte> -> bool, initialBuffer: seq<byte>)
    returns (r: Result<seq<byte>, BodyError>)
    requires forall i :: 0 <= i < |arrivals| ==> 1 <= |arrivals[i]| <= READ_BYTES
    ensures r == Decoded(utf8, initialBuffer + Flat(arrivals), ending, [])
  {
    hide LineOf;
    hide HeaderOf;
    hide Trailers;
    var reader := new ChunkedReader(arrivals, ending, utf8, initialBuffer);
    var body: seq<byte> := [];
    ghost var target := Decoded(utf8, initialBuffer + Flat(arrivals), ending, []);
    while true
      invariant fresh(reader) && reader.Valid() && reader.ending == ending && reader.utf8 == utf8
      invariant Decoded(utf8, reader.Remaining(), ending, body) == target
      decreases |reader.Remaining()|
    {
      var read := reader.ReadLine();
      if read.Err? {
        return Err(read.error);
      }
      var header := HeaderOf(read.value);
      if header.BlankLine? {
        continue;
      }
      if header.BadSize? {
        return Err(MalformedChunk);
      }
      var chunkSize := header.n;
      if chunkSize == 0 {
        var trailers := ReadTrailers(reader);
        return if trailers.Some? then Err(trailers.value) else Ok(body);
      }
      if |body| + chunkSize > U64_MAX {
        return Err(SizeOverflow);
      }
      if |body| + chunkSize > MAX_BODY_BYTES {
        return Err(PayloadTooLarge);
      }
      var chunk := new byte[chunkSize];
      var failed := reader.ReadExact(chunk);
      if failed.Some? {
        return Err(failed.value);
      }
      body := body + chunk[..];
      var cr := reader.ReadByte();
      if cr.Err? {
        return Err(cr.error);
      }
      var lf := reader.ReadByte();
      if lf.Err? {
        return Err(lf.error);
      }
      if cr.value != CR || lf.value != LF {
        return Err(MalformedChunk);
      }
    }
  }

  /** The trailer loop after the last chunk. */
  method ReadTrailers(reader: ChunkedReader) returns (r: Option<BodyError>)
    requires reader.Valid()
    modifies reader
    ensures reader.Valid()
    ensures
      var end := Trailers(reader.utf8, old(reader.Remaining()), reader.ending);
      r == if end.Failed? then Some(end.error) else None
  {
    while true
      invariant reader.Valid()
      invariant Trailers(reader.utf8, reader.Remaining(), reader.ending) ==
                Trailers(reader.utf8, old(reader.Remaining()), reader.ending)
      decreases |reader.Remaining()|
    {
      var trailer := reader.ReadLine();
      if trailer.Err? {
        return Some(trailer.error);
      }
      if Trim(trailer.value) == [] {
        return None;
      }
    }
  }

  // ---------------------------------------------------------------- framed bodies

  /** The text of a size line: white space, the digits with or without a plus sign, white space, an extension. */
  datatype SizeText = SizeText(lead: seq<byte>, plus: bool, digits: seq<byte>, gap: seq<byte>, ext: seq<byte>)

  function Signed(z: SizeText): seq<byte> { if z.plus then [0x2B] + z.digits else z.digits }

  function Line(z: SizeText): seq<byte> { z.lead + (Signed(z) + z.gap + z.ext) }

  /** A chunk as sent: its size line and its data. */
  datatype Chunk = Chunk(size: SizeText, data: seq<byte>)

  const CRLF: seq<byte> := [CR, LF]

  /** A line that can be sent: no line feed in it, short enough with its carriage return, valid text. */
  predicate Sendable(utf8: seq<byte> -> bool, line: seq<byte>) {
    LF !in line && |line| + 1 <= MAX_LINE_BYTES && utf8(line)
  }

  /** Nothing but white space. */
  predicate Spaces(s: seq<byte>) { TrimStart(s) == [] && TrimEnd(s) == [] }

  /** Size digits of either case, with any number of leading zeros, and an optional extension. */
  predicate Shape(z: SizeText, n: nat) {
    && z.digits != [] && HexText(z.digits) && HexValue(z.digits) == n <= U64_MAX
    && Spaces(z.lead) && Spaces(z.gap)
    && (z.ext == [] || z.ext[0] == SEMICOLON)
  }

  predicate SizeLine(utf8: seq<byte> -> bool, z: SizeText, n: nat) { Shape(z, n) && Sendable(utf8, Line(z)) }

  predicate WellFramed(utf8: seq<byte> -> bool, cs: seq<Chunk>) {
    forall i :: 0 <= i < |cs| ==> cs[i].data != [] && SizeLine(utf8, cs[i].size, |cs[i].data|)
  }

  function FramedChunk(c: Chunk): seq<byte> { Line(c.size) + CRLF + (c.data + CRLF) }

  function FramedChunks(cs: seq<Chunk>): seq<byte> {
    if cs == [] then [] else FramedChunk(cs[0]) + FramedChunks(cs[1..])
  }

  /** The last chunk (size zero), the trailer lines and the blank line. */
  datatype Finish = Finish(size: SizeText, trailers: seq<seq<byte>>)

  predicate WellFinished(utf8: seq<byte> -> bool, f: Finish) {
    && SizeLine(utf8, f.size, 0) && utf8([])
    && forall i :: 0 <= i < |f.trailers| ==> Sendable(utf8, f.trailers[i]) && Trim(f.trailers[i]) != []
  }

  function TrailerBytes(lines: seq<seq<byte>>): seq<byte> {
    if lines == [] then CRLF else lines[0] + CRLF + TrailerBytes(lines[1..])
  }

  function FinishBytes(f: Finish): seq<byte> { Line(f.size) + CRLF + TrailerBytes(f.trailers) }

  function Data(cs: seq<Chunk>): seq<byte> {
    if cs == [] then [] else cs[0].data + Data(cs[1..])
  }

  /** A sendable line followed by CRLF is read back whole. */
  lemma {:induction false} LineReads(utf8: seq<byte> -> bool, sofar: seq<byte>, line: seq<byte>, rest: seq<byte>,
      ending: Ending)
    requires Sendable(utf8, sofar + line)
    ensures LineOf(utf8, line + CRLF + rest, ending, sofar) == Got(sofar + line, rest)
    decreases |line|
  {
    var s := line + CRLF + rest;
    if line == [] {
      assert s == CRLF + rest;
      assert s[1..] == [LF] + rest && s[1..][1..] == rest;
      assert sofar + line == sofar;
      assert (sofar + [CR])[..|sofar|] == sofar;
    } else {
      assert s[1..] == line[1..] + CRLF + rest;
      assert sofar + [line[0]] + line[1..] == sofar + line;
      assert line[0] in sofar + line;
      LineReads(utf8, sofar + [line[0]], line[1..], rest, ending);
    }
  }

  lemma FirstLine(utf8: seq<byte> -> bool, line: seq<byte>, rest: seq<byte>, ending: Ending)
    requires Sendable(utf8, line)
    ensures LineOf(utf8, line + CRLF + rest, ending, []) == Got(line, rest)
  {
    assert [] + line == line;
    LineReads(utf8, [], line, rest, ending);
  }

  /** Without a line feed there is no line, only the end of the stream. */
  lemma {:induction false} LineCut(utf8: seq<byte> -> bool, sofar: seq<byte>, s: seq<byte>, ending: Ending)
    requires LF !in s && |sofar| + |s| <= MAX_LINE_BYTES
    ensures LineOf(utf8, s, ending, sofar) == Failed(EndError(ending))
    decreases |s|
  {
    if s != [] {
      assert s[0] in s;
      LineCut(utf8, sofar + [s[0]], s[1..], ending);
    }
  }

  /** A byte no white space character contains. */
  predicate Solid(b: byte) { 33 <= b < 128 }

  lemma SpacesAreNotSolid(s: seq<byte>)
    ensures forall i :: 0 <= i < SpaceAtStart(s) ==> !Solid(s[i])
    ensures forall i :: |s| - SpaceAtEnd(s) <= i < |s| ==> !Solid(s[i])
  {
  }

  lemma SpacesStay(s: seq<byte>, t: seq<byte>)
    ensures SpaceAtStart(s) > 0 ==> SpaceAtStart(s + t) == SpaceAtStart(s)
    ensures SpaceAtEnd(t) > 0 ==> SpaceAtEnd(s + t) == SpaceAtEnd(t)
    ensures t != [] && Solid(t[0]) ==> SpaceAtStart(t) == 0
    ensures s != [] && Solid(s[|s| - 1]) ==> SpaceAtEnd(s) == 0
  {
  }

  /** Leading white space is trimmed away. */
  lemma {:induction false} TrimStartDrops(lead: seq<byte>, rest: seq<byte>)
    requires TrimStart(lead) == [] && rest != [] && Solid(rest[0])
    ensures TrimStart(lead + rest) == rest
    decreases |lead|
  {
    var n := SpaceAtStart(lead);
    SpacesStay(lead, rest);
    hide SpaceAtStart;
    if lead == [] {
      assert lead + rest == rest;
    } else {
      assert (lead + rest)[n..] == lead[n..] + rest;
      TrimStartDrops(lead[n..], rest);
    }
  }

  /** Trailing white space is trimmed away. */
  lemma {:induction false} TrimEndDrops(head: seq<byte>, gap: seq<byte>)
    requires TrimEnd(gap) == [] && head != [] && Solid(head[|head| - 1])
    ensures TrimEnd(head + gap) == head
    decreases |gap|
  {
    var n := SpaceAtEnd(gap);
    SpacesStay(head, gap);
    hide SpaceAtEnd;
    if gap == [] {
      assert head + gap == head;
    } else {
      assert (head + gap)[..|head + gap| - n] == head + gap[..|gap| - n];
      TrimEndDrops(head, gap[..|gap| - n]);
    }
  }

  /** Trimming the end stops at a solid byte. */
  lemma {:induction false} TrimEndKeeps(head: seq<byte>, tail: seq<byte>) returns (k: nat)
    requires head != [] && Solid(head[|head| - 1])
    ensures k <= |tail| && TrimEnd(head + tail) == head + tail[..k]
    decreases |tail|
  {
    var s := head + tail;
    var n := SpaceAtEnd(s);
    if n == 0 {
      k := |tail|;
      assert tail[..k] == tail;
    } else {
      SpacesAreNotSolid(s);
      assert s[|head| - 1] == head[|head| - 1];
      assert |s| - n >= |head|;
      var shorter := tail[..|tail| - n];
      assert s[..|s| - n] == head + shorter;
      k := TrimEndKeeps(head, shorter);
      assert shorter[..k] == tail[..k];
    }
  }

  lemma {:induction false} SpacesHaveNoSemicolon(gap: seq<byte>)
    requires TrimEnd(gap) == []
    ensures SEMICOLON !in gap
    decreases |gap|
  {
    if gap != [] {
      var n := SpaceAtEnd(gap);
      SpacesAreNotSolid(gap);
      SpacesHaveNoSemicolon(gap[..|gap| - n]);
      forall i | 0 <= i < |gap|
        ensures gap[i] != SEMICOLON
      {
        if i < |gap| - n {
          assert gap[i] == gap[..|gap| - n][i];
        }
      }
    }
  }

  lemma {:induction false} BeforeExtensionIs(head: seq<byte>, tail: seq<byte>)
    requires SEMICOLON !in head && (tail == [] || tail[0] == SEMICOLON)
    ensures BeforeExtension(head + tail) == head
    decreases |head|
  {
    if head == [] {
      assert head + tail == tail;
    } else {
      assert (head + tail)[1..] == head[1..] + tail;
      assert head[0] in head;
      BeforeExtensionIs(head[1..], tail);
      assert head == [head[0]] + head[1..];
    }
  }

  predicate AllSolid(s: seq<byte>) { forall i :: 0 <= i < |s| ==> Solid(s[i]) && s[i] != SEMICOLON }

  /** The part of a trimmed line before its extension, trimmed again. */
  lemma CoreTrims(core: seq<byte>, gap: seq<byte>, ext: seq<byte>)
    requires core != [] && AllSolid(core) && Spaces(gap) && (ext == [] || ext[0] == SEMICOLON)
    ensures
      var trimmed := TrimEnd(core + gap + ext);
      trimmed != [] && Trim(BeforeExtension(trimmed)) == core
  {
    hide SpaceAtEnd;
    hide SpaceAtStart;
    hide TrimEnd;
    hide TrimStart;
    hide BeforeExtension;
    TrimEndDrops(core, gap);
    NothingToTrim(core);
    if ext == [] {
      assert core + gap + ext == core + gap;
      assert core + [] == core;
      NoEnd();
      TrimEndDrops(core, []);
      BeforeExtensionIs(core, []);
    } else {
      NothingToTrim(core + gap);
      BeforeSemicolon(core, gap, ext);
    }
  }

  lemma BeforeSemicolon(core: seq<byte>, gap: seq<byte>, ext: seq<byte>)
    requires AllSolid(core) && TrimEnd(gap) == [] && ext != [] && ext[0] == SEMICOLON
    ensures TrimEnd(core + gap + ext) != [] && BeforeExtension(TrimEnd(core + gap + ext)) == core + gap
  {
    hide TrimEnd;
    hide BeforeExtension;
    var head, rest := core + gap + [SEMICOLON], ext[1..];
    assert core + gap + ext == head + rest;
    var k := TrimEndKeeps(head, rest);
    SpacesHaveNoSemicolon(gap);
    var tail := [SEMICOLON] + rest[..k];
    assert head + rest[..k] == core + gap + tail;
    BeforeExtensionIs(core + gap, tail);
  }

  lemma NoEnd()
    ensures TrimEnd([]) == []
  {
  }

  lemma NothingToTrim(s: seq<byte>)
    ensures s != [] && Solid(s[0]) ==> TrimStart(s) == s
  {
  }

  /** A size line means its size, whatever the extension and any white space around the digits. */
  lemma SizeLineMeans(z: SizeText, n: nat)
    requires Shape(z, n)
    ensures HeaderOf(Line(z)) == Size(n)
  {
    hide TrimEnd;
    hide TrimStart;
    hide BeforeExtension;
    hide HexValue;
    var core := Signed(z);
    var rest := core + z.gap + z.ext;
    assert AllSolid(core) && Solid(rest[0]);
    TrimStartDrops(z.lead, rest);
    CoreTrims(core, z.gap, z.ext);
    assert z.digits[0] != 0x2B;
    assert z.plus ==> core[1..] == z.digits;
  }

  lemma {:induction false} TrailersRead(utf8: seq<byte> -> bool, lines: seq<seq<byte>>, rest: seq<byte>, ending: Ending)
    requires utf8([]) && forall i :: 0 <= i < |lines| ==> Sendable(utf8, lines[i]) && Trim(lines[i]) != []
    ensures Trailers(utf8, TrailerBytes(lines) + rest, ending) == Got((), rest)
    decreases |lines|
  {
    if lines == [] {
      FirstLine(utf8, [], rest, ending);
      assert [] + CRLF + rest == CRLF + rest;
    } else {
      var more := TrailerBytes(lines[1..]) + rest;
      FirstLine(utf8, lines[0], more, ending);
      Regroup(lines[0] + CRLF, TrailerBytes(lines[1..]), rest);
      TrailersRead(utf8, lines[1..], rest, ending);
    }
  }

  /** Decoding past a size line. */
  lemma AfterSizeLine(utf8: seq<byte> -> bool, line: seq<byte>, n: u64, after: seq<byte>, ending: Ending,
      body: seq<byte>)
    requires Sendable(utf8, line) && HeaderOf(line) == Size(n) && n > 0 && |body| + n <= U64_MAX
    ensures Decoded(utf8, line + CRLF + after, ending, body) ==
            if |body| + n > MAX_BODY_BYTES then Err(PayloadTooLarge)
            else if |after| < n then Err(EndError(ending))
            else if CrLf(after[n..], ending).Failed? then Err(CrLf(after[n..], ending).error)
            else Decoded(utf8, CrLf(after[n..], ending).rest, ending, body + after[..n])
  {
    hide LineOf;
    hide HeaderOf;
    hide CrLf;
    FirstLine(utf8, line, after, ending);
  }

  lemma DataThenCrLf(data: seq<byte>, rest: seq<byte>, ending: Ending)
    ensures
      var after := data + (CRLF + rest);
      after[..|data|] == data && CrLf(after[|data|..], ending) == Got((), rest)
  {
    var after := data + (CRLF + rest);
    assert after[|data|..] == CRLF + rest;
    assert (CRLF + rest)[2..] == rest;
  }

  /** One framed chunk: its data joins the body if it fits. */
  lemma ChunkReads(utf8: seq<byte> -> bool, c: Chunk, rest: seq<byte>, ending: Ending, body: seq<byte>)
    requires c.data != [] && SizeLine(utf8, c.size, |c.data|) && |body| + |c.data| <= U64_MAX
    ensures Decoded(utf8, FramedChunk(c) + rest, ending, body) ==
            if |body| + |c.data| > MAX_BODY_BYTES then Err(PayloadTooLarge)
            else Decoded(utf8, rest, ending, body + c.data)
  {
    hide Decoded;
    hide CrLf;
    hide HeaderOf;
    var line := Line(c.size);
    var after := c.data + (CRLF + rest);
    ChunkParts(line, c.data, rest);
    SizeLineMeans(c.size, |c.data|);
    DataThenCrLf(c.data, rest, ending);
    AfterSizeLine(utf8, line, |c.data|, after, ending, body);
  }

  lemma ChunkParts(line: seq<byte>, data: seq<byte>, rest: seq<byte>)
    ensures line + CRLF + (data + CRLF) + rest == line + CRLF + (data + (CRLF + rest))
  {
    Regroup(line + CRLF, data + CRLF, rest);
    Regroup(data, CRLF, rest);
  }

  lemma FinishReads(utf8: seq<byte> -> bool, f: Finish, rest: seq<byte>, ending: Ending, body: seq<byte>)
    requires WellFinished(utf8, f)
    ensures Decoded(utf8, FinishBytes(f) + rest, ending, body) == Ok(body)
  {
    var line := Line(f.size);
    var after := TrailerBytes(f.trailers) + rest;
    Regroup(line + CRLF, TrailerBytes(f.trailers), rest);
    FirstLine(utf8, line, after, ending);
    SizeLineMeans(f.size, 0);
    TrailersRead(utf8, f.trailers, rest, ending);
  }

  /**
   * A framed body decodes to the concatenation of its chunks exactly when they total at most the limit; otherwise
   * it is refused as too large. What follows the body on the connection does not matter.
   */
  lemma {:induction false} FramedDecodes(utf8: seq<byte> -> bool, cs: seq<Chunk>, f: Finish, rest: seq<byte>,
      ending: Ending, body: seq<byte>)
    requires WellFramed(utf8, cs) && WellFinished(utf8, f) && |body| <= MAX_BODY_BYTES
    requires |body| + |Data(cs)| <= U64_MAX
    ensures Decoded(utf8, FramedChunks(cs) + FinishBytes(f) + rest, ending, body) ==
            if |body| + |Data(cs)| <= MAX_BODY_BYTES then Ok(body + Data(cs)) else Err(PayloadTooLarge)
    decreases |cs|
  {
    var tail := FinishBytes(f) + rest;
    Regroup(FramedChunks(cs), FinishBytes(f), rest);
    if cs == [] {
      assert [] + tail == tail && body + [] == body;
      FinishReads(utf8, f, rest, ending, body);
    } else {
      var more := FramedChunks(cs[1..]) + FinishBytes(f) + rest;
      Regroup(FramedChunks(cs[1..]), FinishBytes(f), rest);
      Regroup(FramedChunk(cs[0]), FramedChunks(cs[1..]), tail);
      ChunkReads(utf8, cs[0], more, ending, body);
      if |body| + |cs[0].data| <= MAX_BODY_BYTES {
        FramedDecodes(utf8, cs[1..], f, rest, ending, body + cs[0].data);
        Regroup(body, cs[0].data, Data(cs[1..]));
      }
    }
  }

  // ---------------------------------------------------------------- sizes that do not fit

  lemma {:induction false} ChunksRead(utf8: seq<byte> -> bool, cs: seq<Chunk>, rest: seq<byte>, ending: Ending,
      body: seq<byte>)
    requires WellFramed(utf8, cs) && |body| + |Data(cs)| <= MAX_BODY_BYTES
    ensures Decoded(utf8, FramedChunks(cs) + rest, ending, body) == Decoded(utf8, rest, ending, body + Data(cs))
    decreases |cs|
  {
    hide Decoded;
    hide FramedChunk;
    hide SizeLine;
    if cs == [] {
      assert [] + rest == rest && body + [] == body;
    } else {
      Regroup(FramedChunk(cs[0]), FramedChunks(cs[1..]), rest);
      ChunkReads(utf8, cs[0], FramedChunks(cs[1..]) + rest, ending, body);
      ChunksRead(utf8, cs[1..], rest, ending, body + cs[0].data);
      Regroup(body, cs[0].data, Data(cs[1..]));
    }
  }

  lemma TooMuch(utf8: seq<byte> -> bool, z: SizeText, n: nat, after: seq<byte>, ending: Ending, body: seq<byte>)
    requires SizeLine(utf8, z, n) && n > 0 && |body| + n > MAX_BODY_BYTES
    ensures Decoded(utf8, Line(z) + CRLF + after, ending, body) ==
            Err(if |body| + n > U64_MAX then SizeOverflow else PayloadTooLarge)
  {
    hide LineOf;
    hide HeaderOf;
    FirstLine(utf8, Line(z), after, ending);
    SizeLineMeans(z, n);
  }

  /**
   * After framed chunks of total length k, a size line n that takes the total past the limit is refused as too large
   * while k + n fits 64 bits, and overflows exactly when it does not; never at the first chunk.
   */
  lemma OverflowIsExact(utf8: seq<byte> -> bool, cs: seq<Chunk>, z: SizeText, n: nat, after: seq<byte>, ending: Ending)
    requires WellFramed(utf8, cs) && |Data(cs)| <= MAX_BODY_BYTES
    requires SizeLine(utf8, z, n) && n > 0 && |Data(cs)| + n > MAX_BODY_BYTES
    ensures
      var r := Decoded(utf8, FramedChunks(cs) + (Line(z) + CRLF + after), ending, []);
      && (r == Err(SizeOverflow) <==> |Data(cs)| + n > U64_MAX)
      && (r == Err(PayloadTooLarge) <==> |Data(cs)| + n <= U64_MAX)
      && (cs == [] ==> r == Err(PayloadTooLarge))
  {
    hide Decoded;
    ChunksRead(utf8, cs, Line(z) + CRLF + after, ending, []);
    assert [] + Data(cs) == Data(cs);
    TooMuch(utf8, z, n, after, ending, Data(cs));
  }

  // ---------------------------------------------------------------- cut bodies

  /** A cut inside a line or its CRLF. */
  lemma CutInLine(utf8: seq<byte> -> bool, line: seq<byte>, after: seq<byte>, n: nat, ending: Ending)
    requires Sendable(utf8, line) && n < |line| + 2
    ensures LineOf(utf8, (line + CRLF + after)[..n], ending, []) == Failed(EndError(ending))
  {
    var s := (line + CRLF + after)[..n];
    forall i | 0 <= i < n
      ensures s[i] != LF
    {
      if i < |line| {
        assert s[i] == line[i];
        assert line[i] in line;
      }
    }
    LineCut(utf8, [], s, ending);
  }

  lemma {:induction false} TrailersCut(utf8: seq<byte> -> bool, lines: seq<seq<byte>>, n: nat, ending: Ending)
    requires utf8([]) && forall i :: 0 <= i < |lines| ==> Sendable(utf8, lines[i]) && Trim(lines[i]) != []
    requires n < |TrailerBytes(lines)|
    ensures Trailers(utf8, TrailerBytes(lines)[..n], ending) == Failed(EndError(ending))
    decreases |lines|
  {
    hide LineOf;
    if lines == [] {
      assert [] + CRLF + [] == CRLF;
      CutInLine(utf8, [], [], n, ending);
    } else {
      var head, tail := lines[0] + CRLF, TrailerBytes(lines[1..]);
      if n < |head| {
        CutInLine(utf8, lines[0], tail, n, ending);
      } else {
        TakeAcross(head, tail, n);
        FirstLine(utf8, lines[0], tail[..n - |head|], ending);
        TrailersCut(utf8, lines[1..], n - |head|, ending);
      }
    }
  }

  lemma CutInFinish(utf8: seq<byte> -> bool, f: Finish, n: nat, ending: Ending, body: seq<byte>)
    requires WellFinished(utf8, f) && n < |FinishBytes(f)|
    ensures Decoded(utf8, FinishBytes(f)[..n], ending, body) == Err(EndError(ending))
  {
    hide LineOf;
    hide HeaderOf;
    hide Trailers;
    var line, tail := Line(f.size), TrailerBytes(f.trailers);
    if n < |line| + 2 {
      CutInLine(utf8, line, tail, n, ending);
    } else {
      TakeAcross(line + CRLF, tail, n);
      FirstLine(utf8, line, tail[..n - |line| - 2], ending);
      SizeLineMeans(f.size, 0);
      TrailersCut(utf8, f.trailers, n - |line| - 2, ending);
    }
  }

  lemma CutInChunk(utf8: seq<byte> -> bool, c: Chunk, n: nat, ending: Ending, body: seq<byte>)
    requires c.data != [] && SizeLine(utf8, c.size, |c.data|) && |body| + |c.data| <= MAX_BODY_BYTES
    requires n < |FramedChunk(c)|
    ensures Decoded(utf8, FramedChunk(c)[..n], ending, body) == Err(EndError(ending))
  {
    hide LineOf;
    hide HeaderOf;
    var line, tail := Line(c.size), c.data + CRLF;
    if n < |line| + 2 {
      CutInLine(utf8, line, tail, n, ending);
    } else {
      hide Decoded;
      TakeAcross(line + CRLF, tail, n);
      SizeLineMeans(c.size, |c.data|);
      AfterSizeLine(utf8, line, |c.data|, tail[..n - |line| - 2], ending, body);
    }
  }

  /** No cut of a framed body is taken for a shorter body: every one ends in the stream's own ending. */
  lemma {:induction false} CutFails(utf8: seq<byte> -> bool, cs: seq<Chunk>, f: Finish, n: nat, ending: Ending,
      body: seq<byte>)
    requires WellFramed(utf8, cs) && WellFinished(utf8, f) && |body| + |Data(cs)| <= MAX_BODY_BYTES
    requires n < |FramedChunks(cs) + FinishBytes(f)|
    ensures Decoded(utf8, (FramedChunks(cs) + FinishBytes(f))[..n], ending, body) ==
            Err(if ending == Closed then IncompleteBody else ReadError)
    decreases |cs|
  {
    hide Decoded;
    hide FramedChunk;
    hide FinishBytes;
    hide SizeLine;
    if cs == [] {
      assert [] + FinishBytes(f) == FinishBytes(f);
      CutInFinish(utf8, f, n, ending, body);
    } else {
      var head, tail := FramedChunk(cs[0]), FramedChunks(cs[1..]) + FinishBytes(f);
      Regroup(head, FramedChunks(cs[1..]), FinishBytes(f));
      TakeAcross(head, tail, n);
      if n < |head| {
        CutInChunk(utf8, cs[0], n, ending, body);
      } else {
        ChunkReads(utf8, cs[0], tail[..n - |head|], ending, body);
        CutFails(utf8, cs[1..], f, n - |head|, ending, body + cs[0].data);
      }
    }
  }
}
