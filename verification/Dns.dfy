/**
 * DNS messages: name decompression with capped pointers and labels, and the question and answer loops.
 * The check that a label is valid UTF-8 is a parameter.
 */
module Dns {
  import opened Wrappers
  import opened Bytes

  const MAX_POINTER_JUMPS: nat := 16
  const MAX_LABELS: nat := 128

  type Label = seq<byte>
  type Message = seq<byte>

  /** A decoded name and the offset just past its part in place. */
  datatype Name = Name(labels: seq<Label>, next: nat)

  /** The top two bits mark a compression pointer. */
  predicate PointerByte(b: byte) { b >= 0xC0 }

  function PointerAt(msg: Message, pos: nat): nat
    requires pos + 1 < |msg| && PointerByte(msg[pos])
  {
    var high: nat := msg[pos] - 0xC0;
    high * 256 + msg[pos + 1]
  }

  // ---------------------------------------------------------------- what a message spells

  /** How a name is laid out: label by label, possibly continued elsewhere through pointers. */
  datatype Shape = Root | Labelled(rest: Shape) | Pointed(target: Shape)

  /** The message spells these labels at `pos`, laid out in that shape; any byte from 1 to 191 is a label length. */
  predicate Spells(msg: Message, pos: nat, shape: Shape, labels: seq<Label>)
    decreases shape
  {
    pos < |msg| &&
    match shape
    case Root => msg[pos] == 0 && labels == []
    case Labelled(rest) =>
      && 0 < msg[pos] && !PointerByte(msg[pos])
      && pos + 1 + msg[pos] <= |msg|
      && labels != [] && labels[0] == msg[pos + 1..pos + 1 + msg[pos]]
      && Spells(msg, pos + 1 + msg[pos], rest, labels[1..])
    case Pointed(target) =>
      && PointerByte(msg[pos]) && pos + 1 < |msg|
      && Spells(msg, PointerAt(msg, pos), target, labels)
  }

  function Pointers(shape: Shape): nat {
    match shape
    case Root => 0
    case Labelled(rest) => Pointers(rest)
    case Pointed(target) => 1 + Pointers(target)
  }

  /** The offset just past the part of the name that lies in place. */
  function EndInPlace(msg: Message, pos: nat, shape: Shape): nat
    decreases shape
  {
    match shape
    case Root => pos + 1
    case Labelled(rest) => if pos < |msg| then EndInPlace(msg, pos + 1 + msg[pos], rest) else pos
    case Pointed(_) => pos + 2
  }

  predicate AllText(utf8: Label -> bool, labels: seq<Label>) {
    forall i :: 0 <= i < |labels| ==> utf8(labels[i])
  }

  // ---------------------------------------------------------------- reading a name

  /** The name read from `pos`, with so many pointers and labels already spent. */
  function ReadFrom(utf8: Label -> bool, msg: Message, pos: nat, jumps: nat, count: nat): Option<Name>
    requires jumps <= MAX_POINTER_JUMPS && count <= MAX_LABELS
    decreases MAX_POINTER_JUMPS - jumps + MAX_LABELS - count
  {
    if pos >= |msg| then None
    else if PointerByte(msg[pos]) then
      if pos + 1 >= |msg| || jumps + 1 > MAX_POINTER_JUMPS then None
      else
        match ReadFrom(utf8, msg, PointerAt(msg, pos), jumps + 1, count)
        case None => None
        case Some(name) => Some(Name(name.labels, pos + 2))
    else if msg[pos] == 0 then Some(Name([], pos + 1))
    else
      var end := pos + 1 + msg[pos];
      if count + 1 > MAX_LABELS || end > |msg| || !utf8(msg[pos + 1..end]) then None
      else
        match ReadFrom(utf8, msg, end, jumps, count + 1)
        case None => None
        case Some(name) => Some(Name([msg[pos + 1..end]] + name.labels, name.next))
  }

  /** The labels joined with dots. */
  function Join(labels: seq<Label>): seq<byte> {
    if labels == [] then []
    else if |labels| == 1 then labels[0]
    else labels[0] + [DOT] + Join(labels[1..])
  }

  const DOT: byte := 0x2E

  predicate Dotless(labels: seq<Label>) { forall i :: 0 <= i < |labels| ==> labels[i] != [] && DOT !in labels[i] }

  /** The text before the first dot. */
  function UntilDot(s: seq<byte>): seq<byte> { if s == [] || s[0] == DOT then [] else [s[0]] + UntilDot(s[1..]) }

  lemma {:induction false} UntilDotIs(s: seq<byte>, rest: seq<byte>)
    requires DOT !in s && (rest == [] || rest[0] == DOT)
    ensures UntilDot(s + rest) == s
    decreases |s|
  {
    if s == [] {
      assert s + rest == rest;
    } else {
      assert s[0] in s && (s + rest)[1..] == s[1..] + rest;
      UntilDotIs(s[1..], rest);
      assert s == [s[0]] + s[1..];
    }
  }

  lemma FirstLabelIs(labels: seq<Label>)
    requires Dotless(labels)
    ensures Join(labels) == [] <==> labels == []
    ensures labels != [] ==> UntilDot(Join(labels)) == labels[0]
    ensures |labels| > 1 ==> Join(labels)[|labels[0]| + 1..] == Join(labels[1..])
  {
    hide UntilDot;
    if labels != [] {
      var rest := if |labels| == 1 then [] else [DOT] + Join(labels[1..]);
      UntilDotIs(labels[0], rest);
      assert labels[0] + rest == Join(labels);
    }
  }

  /** Among lists of nonempty labels without dots, the text tells which list it is. */
  lemma {:induction false} TextDetermines(a: seq<Label>, b: seq<Label>)
    requires Dotless(a) && Dotless(b)
    ensures Join(a) == Join(b) <==> a == b
  {
    hide UntilDot;
    FirstLabelIs(a);
    FirstLabelIs(b);
    if Join(a) == Join(b) && |a| > 1 && |b| > 1 {
      TextDetermines(a[1..], b[1..]);
      assert a == [a[0]] + a[1..] && b == [b[0]] + b[1..];
    }
  }

  /** A label with a dot in it gives the text of the two labels around that dot. */
  lemma {:induction false} DottedCollides(before: seq<Label>, x: Label, y: Label, after: seq<Label>)
    ensures Join(before + [x + [0x2E] + y] + after) == Join(before + [x, y] + after)
    ensures before + [x + [0x2E] + y] + after != before + [x, y] + after
  {
    var one, two := before + [x + [DOT] + y] + after, before + [x, y] + after;
    assert |one| + 1 == |two|;
    if before == [] {
      assert one[1..] == after && two[1..] == [y] + after && two[1..][1..] == after;
      if after != [] {
        assert x + [DOT] + y + [DOT] + Join(after) == x + [DOT] + (y + [DOT] + Join(after));
      }
    } else {
      assert one[1..] == before[1..] + [x + [DOT] + y] + after;
      assert two[1..] == before[1..] + [x, y] + after;
      DottedCollides(before[1..], x, y, after);
    }
  }

  datatype TextName = TextName(text: seq<byte>, next: nat)

  function AsText(name: Option<Name>): Option<TextName> {
    match name
    case None => None
    case Some(n) => Some(TextName(Join(n.labels), n.next))
  }

  /** The reader's state and what is still to be read, put together. */
  function Completed(labels: seq<Label>, endAfterPointer: Option<nat>, rest: Option<Name>): Option<Name> {
    match rest
    case None => None
    case Some(n) => Some(Name(labels + n.labels, if endAfterPointer.Some? then endAfterPointer.value else n.next))
  }

  /** `steps` counts the turns of the loop: at most 16 pointers, 128 labels and the end. */
  method ReadName(utf8: Label -> bool, msg: Message, start: nat) returns (r: Option<TextName>, ghost steps: nat)
    ensures r == AsText(ReadFrom(utf8, msg, start, 0, 0))
    ensures r.Some? ==> start < r.value.next <= |msg|
    ensures steps <= 145
  {
    hide ReadFrom;
    hide PointerAt;
    hide Completed;
    hide Join;
    NextInBounds(utf8, msg, start, 0, 0);
    var labels: seq<Label> := [];
    var pos: nat := start;
    var jumps: nat := 0;
    var labelCount: nat := 0;
    var endAfterPointer: Option<nat> := None;
    steps := 0;
    ghost var target := ReadFrom(utf8, msg, start, 0, 0);
    CompletedFromStart(target);
    while true
      invariant jumps <= MAX_POINTER_JUMPS && labelCount <= MAX_LABELS && steps == jumps + labelCount
      invariant Completed(labels, endAfterPointer, ReadFrom(utf8, msg, pos, jumps, labelCount)) == target
      decreases MAX_POINTER_JUMPS - jumps + MAX_LABELS - labelCount
    {
      steps := steps + 1;
      NameStep(utf8, msg, pos, jumps, labelCount, labels, endAfterPointer);
      if pos >= |msg| {
        return None, steps;
      }
      var len := msg[pos];
      if PointerByte(len) {
        if pos + 1 >= |msg| {
          return None, steps;
        }
        if endAfterPointer == None {
          endAfterPointer := Some(pos + 2);
        }
        jumps := jumps + 1;
        if jumps > MAX_POINTER_JUMPS {
          return None, steps;
        }
        pos := PointerAt(msg, pos);
        continue;
      }
      if len == 0 {
        pos := pos + 1;
        break;
      }
      labelCount := labelCount + 1;
      if labelCount > MAX_LABELS {
        return None, steps;
      }
      var e := pos + 1 + len;
      if e > |msg| {
        return None, steps;
      }
      if !utf8(msg[pos + 1..e]) {
        return None, steps;
      }
      labels := labels + [msg[pos + 1..e]];
      pos := e;
    }
    r := Some(TextName(Join(labels), if endAfterPointer.Some? then endAfterPointer.value else pos));
  }

  lemma CompletedFromStart(rest: Option<Name>)
    ensures Completed([], None, rest) == rest
  {
    if rest.Some? {
      assert [] + rest.value.labels == rest.value.labels;
    }
  }

  /** What one turn of the name loop does to what is still to be read. */
  lemma NameStep(utf8: Label -> bool, msg: Message, pos: nat, jumps: nat, count: nat, labels: seq<Label>,
      end: Option<nat>)
    requires jumps <= MAX_POINTER_JUMPS && count <= MAX_LABELS
    ensures
      var done := Completed(labels, end, ReadFrom(utf8, msg, pos, jumps, count));
      if pos >= |msg| then done == None
      else if PointerByte(msg[pos]) then
        if pos + 1 >= |msg| || jumps == MAX_POINTER_JUMPS then done == None
        else done == Completed(labels, if end == None then Some(pos + 2) else end,
                               ReadFrom(utf8, msg, PointerAt(msg, pos), jumps + 1, count))
      else if msg[pos] == 0 then
        done == Some(Name(labels, if end.Some? then end.value else pos + 1))
      else
        var e := pos + 1 + msg[pos];
        if count == MAX_LABELS || e > |msg| || !utf8(msg[pos + 1..e]) then done == None
        else done == Completed(labels + [msg[pos + 1..e]], end, ReadFrom(utf8, msg, e, jumps, count + 1))
  {
    if pos < |msg| && !PointerByte(msg[pos]) {
      if msg[pos] == 0 {
        assert labels + [] == labels;
      } else {
        var e := pos + 1 + msg[pos];
        if count < MAX_LABELS && e <= |msg| && ReadFrom(utf8, msg, e, jumps, count + 1).Some? {
          Regroup(labels, [msg[pos + 1..e]], ReadFrom(utf8, msg, e, jumps, count + 1).value.labels);
        }
      }
    }
  }

  /** A returned offset is past the start and within the message. */
  lemma {:induction false} NextInBounds(utf8: Label -> bool, msg: Message, pos: nat, jumps: nat, count: nat)
    requires jumps <= MAX_POINTER_JUMPS && count <= MAX_LABELS
    ensures ReadFrom(utf8, msg, pos, jumps, count).Some? ==>
            pos < ReadFrom(utf8, msg, pos, jumps, count).value.next <= |msg|
    decreases MAX_POINTER_JUMPS - jumps + MAX_LABELS - count
  {
    if pos < |msg| && 0 < msg[pos] && !PointerByte(msg[pos]) && count < MAX_LABELS && pos + 1 + msg[pos] <= |msg| {
      NextInBounds(utf8, msg, pos + 1 + msg[pos], jumps, count + 1);
    }
  }

  // ---------------------------------------------------------------- reading is exactly spelling, within the caps

  lemma {:induction false} SpelledIsRead(utf8: Label -> bool, msg: Message, pos: nat, shape: Shape, labels: seq<Label>,
      jumps: nat, count: nat)
    requires Spells(msg, pos, shape, labels) && AllText(utf8, labels)
    requires jumps + Pointers(shape) <= MAX_POINTER_JUMPS && count + |labels| <= MAX_LABELS
    ensures ReadFrom(utf8, msg, pos, jumps, count) == Some(Name(labels, EndInPlace(msg, pos, shape)))
    decreases shape
  {
    match shape
    case Root =>
    case Labelled(rest) =>
      SpelledIsRead(utf8, msg, pos + 1 + msg[pos], rest, labels[1..], jumps, count + 1);
      assert labels == [labels[0]] + labels[1..];
    case Pointed(target) =>
      SpelledIsRead(utf8, msg, PointerAt(msg, pos), target, labels, jumps + 1, count);
  }

  lemma {:induction false} ReadIsSpelled(utf8: Label -> bool, msg: Message, pos: nat, jumps: nat, count: nat)
    returns (shape: Shape)
    requires jumps <= MAX_POINTER_JUMPS && count <= MAX_LABELS
    requires ReadFrom(utf8, msg, pos, jumps, count).Some?
    ensures
      var name := ReadFrom(utf8, msg, pos, jumps, count).value;
      && Spells(msg, pos, shape, name.labels) && AllText(utf8, name.labels)
      && jumps + Pointers(shape) <= MAX_POINTER_JUMPS && count + |name.labels| <= MAX_LABELS
      && name.next == EndInPlace(msg, pos, shape)
    decreases MAX_POINTER_JUMPS - jumps + MAX_LABELS - count
  {
    if PointerByte(msg[pos]) {
      var target := ReadIsSpelled(utf8, msg, PointerAt(msg, pos), jumps + 1, count);
      shape := Pointed(target);
    } else if msg[pos] == 0 {
      shape := Root;
    } else {
      var end := pos + 1 + msg[pos];
      var rest := ReadIsSpelled(utf8, msg, end, jumps, count + 1);
      var tail := ReadFrom(utf8, msg, end, jumps, count + 1).value.labels;
      assert ([msg[pos + 1..end]] + tail)[1..] == tail;
      shape := Labelled(rest);
    }
  }

  /**
   * A name is read exactly when the message spells it within 16 pointers and 128 labels of valid text, and then
   * the labels and the offset are the ones spelled.
   */
  lemma NamesExact(utf8: Label -> bool, msg: Message, start: nat, name: Name)
    ensures ReadFrom(utf8, msg, start, 0, 0) == Some(name) <==>
            exists shape ::
              && Spells(msg, start, shape, name.labels) && AllText(utf8, name.labels)
              && Pointers(shape) <= 16 && |name.labels| <= 128
              && name.next == EndInPlace(msg, start, shape)
  {
    if ReadFrom(utf8, msg, start, 0, 0) == Some(name) {
      var shape := ReadIsSpelled(utf8, msg, start, 0, 0);
    }
    if shape :|
         && Spells(msg, start, shape, name.labels) && AllText(utf8, name.labels)
         && Pointers(shape) <= MAX_POINTER_JUMPS && |name.labels| <= MAX_LABELS
         && name.next == EndInPlace(msg, start, shape)
    {
      SpelledIsRead(utf8, msg, start, shape, name.labels, 0, 0);
    }
  }

  // ---------------------------------------------------------------- writing names

  /** A name as an encoder writes it: labels of 1 to 63 bytes, then the root or a pointer to a suffix. */
  datatype Written = Written(labels: seq<Label>, suffixAt: Option<nat>)

  predicate Writable(w: Written) {
    && (forall i :: 0 <= i < |w.labels| ==> 1 <= |w.labels[i]| <= 63)
    && (w.suffixAt.Some? ==> w.suffixAt.value < 0x4000)
  }

  function WrittenBytes(w: Written): (s: seq<byte>)
    requires Writable(w)
    ensures |s| >= 1
    decreases |w.labels|
  {
    if w.labels == [] then
      match w.suffixAt
      case None => [0]
      case Some(p) => [0xC0 + p / 256, p % 256]
    else [|w.labels[0]|] + w.labels[0] + WrittenBytes(w.(labels := w.labels[1..]))
  }

  /** These bytes stand at that offset of the message. */
  predicate At(msg: Message, pos: nat, s: seq<byte>) {
    pos + |s| <= |msg| && msg[pos..pos + |s|] == s
  }

  lemma AtParts(msg: Message, pos: nat, a: seq<byte>, b: seq<byte>)
    requires At(msg, pos, a + b)
    ensures At(msg, pos, a) && At(msg, pos + |a|, b)
  {
    var s := msg[pos..pos + |a + b|];
    assert s[..|a|] == a && s[|a|..] == b;
  }

  /** The labels a written name stands for in a message that holds its suffix, if any. */
  function Meaning(utf8: Label -> bool, msg: Message, w: Written, jumps: nat, count: nat): Option<seq<Label>>
    requires jumps <= MAX_POINTER_JUMPS && count + |w.labels| <= MAX_LABELS
  {
    match w.suffixAt
    case None => Some(w.labels)
    case Some(p) =>
      if jumps + 1 > MAX_POINTER_JUMPS then None
      else match ReadFrom(utf8, msg, p, jumps + 1, count + |w.labels|)
           case None => None
           case Some(suffix) => Some(w.labels + suffix.labels)
  }

  /** A written name reads back as what it stands for, ending just past its own bytes. */
  lemma {:induction false} WrittenReads(utf8: Label -> bool, msg: Message, pos: nat, w: Written, jumps: nat, count: nat)
    requires Writable(w) && At(msg, pos, WrittenBytes(w)) && AllText(utf8, w.labels)
    requires jumps <= MAX_POINTER_JUMPS && count + |w.labels| <= MAX_LABELS
    requires Meaning(utf8, msg, w, jumps, count).Some?
    ensures ReadFrom(utf8, msg, pos, jumps, count) ==
            Some(Name(Meaning(utf8, msg, w, jumps, count).value, pos + |WrittenBytes(w)|))
    decreases |w.labels|
  {
    hide ReadFrom;
    hide Meaning;
    hide At;
    if w.labels == [] {
      EndReads(utf8, msg, pos, w, jumps, count);
    } else {
      var piece, rest := w.labels[0], w.(labels := w.labels[1..]);
      MeaningStep(utf8, msg, w, jumps, count);
      AtParts(msg, pos, [|piece|] + piece, WrittenBytes(rest));
      WrittenReads(utf8, msg, pos + 1 + |piece|, rest, jumps, count + 1);
      LabelReads(utf8, msg, pos, piece, jumps, count);
    }
  }

  /** The root, or the pointer to the suffix. */
  lemma EndReads(utf8: Label -> bool, msg: Message, pos: nat, w: Written, jumps: nat, count: nat)
    requires w.labels == [] && Writable(w) && At(msg, pos, WrittenBytes(w))
    requires jumps <= MAX_POINTER_JUMPS && count <= MAX_LABELS
    requires Meaning(utf8, msg, w, jumps, count).Some?
    ensures ReadFrom(utf8, msg, pos, jumps, count) ==
            Some(Name(Meaning(utf8, msg, w, jumps, count).value, pos + |WrittenBytes(w)|))
  {
    FirstBytes(msg, pos, WrittenBytes(w));
    if w.suffixAt.Some? {
      assert PointerAt(msg, pos) == w.suffixAt.value;
      var suffix := ReadFrom(utf8, msg, w.suffixAt.value, jumps + 1, count).value;
      assert [] + suffix.labels == suffix.labels;
    }
  }

  /** One label, and then what is read after it. */
  lemma LabelReads(utf8: Label -> bool, msg: Message, pos: nat, piece: Label, jumps: nat, count: nat)
    requires 1 <= |piece| <= 63 && utf8(piece) && At(msg, pos, [|piece|] + piece)
    requires jumps <= MAX_POINTER_JUMPS && count + 1 <= MAX_LABELS
    requires ReadFrom(utf8, msg, pos + 1 + |piece|, jumps, count + 1).Some?
    ensures ReadFrom(utf8, msg, pos, jumps, count) ==
            var rest := ReadFrom(utf8, msg, pos + 1 + |piece|, jumps, count + 1).value;
            Some(Name([piece] + rest.labels, rest.next))
  {
    AtParts(msg, pos, [|piece|], piece);
    FirstBytes(msg, pos, [|piece|]);
  }

  lemma MeaningStep(utf8: Label -> bool, msg: Message, w: Written, jumps: nat, count: nat)
    requires jumps <= MAX_POINTER_JUMPS && count + |w.labels| <= MAX_LABELS && w.labels != []
    requires Meaning(utf8, msg, w, jumps, count).Some?
    ensures
      var rest := Meaning(utf8, msg, w.(labels := w.labels[1..]), jumps, count + 1);
      rest.Some? && Meaning(utf8, msg, w, jumps, count).value == [w.labels[0]] + rest.value
  {
    var piece, rest := w.labels[0], w.(labels := w.labels[1..]);
    assert w.labels == [piece] + rest.labels;
    assert count + 1 + |rest.labels| == count + |w.labels|;
    if w.suffixAt.Some? {
      var suffix := ReadFrom(utf8, msg, w.suffixAt.value, jumps + 1, count + |w.labels|).value;
      Regroup([piece], rest.labels, suffix.labels);
    }
  }

  lemma AtFits(msg: Message, pos: nat, s: seq<byte>)
    requires At(msg, pos, s)
    ensures pos + |s| <= |msg|
  {
  }

  lemma FirstBytes(msg: Message, pos: nat, s: seq<byte>)
    requires At(msg, pos, s)
    ensures forall i :: 0 <= i < |s| ==> msg[pos + i] == s[i]
  {
    forall i | 0 <= i < |s|
      ensures msg[pos + i] == s[i]
    {
      assert msg[pos..pos + |s|][i] == msg[pos + i];
    }
  }

  // ---------------------------------------------------------------- the dissector

  const TYPE_A: u16 := 1
  const TYPE_CNAME: u16 := 5
  const TYPE_AAAA: u16 := 28

  datatype Question = Question(name: seq<byte>, qtype: u16)

  datatype Address = V4(octets: seq<byte>) | V6(octets: seq<byte>)

  datatype Answer = Answer(name: seq<byte>, addr: Option<Address>, cname: Option<seq<byte>>, ttl: u32)

  datatype Info = Info(isResponse: bool, rcode: nat, questions: seq<Question>, answers: seq<Answer>)

  function U16At(msg: Message, pos: nat): u16
    requires pos + 2 <= |msg|
  {
    Word16(msg[pos..pos + 2], true)
  }

  function U32At(msg: Message, pos: nat): u32
    requires pos + 4 <= |msg|
  {
    Word32(msg[pos..pos + 4], true)
  }

  datatype Parsed<T> = Parsed(items: seq<T>, next: nat)

  /** One question: its name, type and class. */
  function QuestionAt(utf8: Label -> bool, msg: Message, pos: nat): Option<(Question, nat)> {
    match AsText(ReadFrom(utf8, msg, pos, 0, 0))
    case None => None
    case Some(name) =>
      if name.next + 4 > |msg| then None
      else Some((Question(name.text, U16At(msg, name.next)), name.next + 4))
  }

  /** All `n` questions, or nothing. */
  function QuestionsAt(utf8: Label -> bool, msg: Message, pos: nat, n: nat): Option<Parsed<Question>>
    decreases n
  {
    if n == 0 then Some(Parsed([], pos))
    else match QuestionAt(utf8, msg, pos)
         case None => None
         case Some((q, next)) =>
           match QuestionsAt(utf8, msg, next, n - 1)
           case None => None
           case Some(more) => Some(Parsed([q] + more.items, more.next))
  }

  /** What the resource data of an answer adds; a canonical name is read from the message, not from the data alone. */
  function WithData(utf8: Label -> bool, msg: Message, pos: nat, rtype: u16, len: nat, a: Answer): Answer
    requires pos + len <= |msg|
  {
    if rtype == TYPE_A && len == 4 then a.(addr := Some(V4(msg[pos..pos + 4])))
    else if rtype == TYPE_AAAA && len == 16 then a.(addr := Some(V6(msg[pos..pos + 16])))
    else if rtype == TYPE_CNAME then
      match AsText(ReadFrom(utf8, msg, pos, 0, 0))
      case None => a
      case Some(name) => a.(cname := Some(name.text))
    else a
  }

  function AnswerAt(utf8: Label -> bool, msg: Message, pos: nat): Option<(Answer, nat)> {
    match AsText(ReadFrom(utf8, msg, pos, 0, 0))
    case None => None
    case Some(name) =>
      var p := name.next;
      if p + 10 > |msg| then None
      else
        var rdlength := U16At(msg, p + 8);
        if p + 10 + rdlength > |msg| then None
        else
          var blank := Answer(name.text, None, None, U32At(msg, p + 4));
          Some((WithData(utf8, msg, p + 10, U16At(msg, p), rdlength, blank), p + 10 + rdlength))
  }

  /** Up to `n` answers, stopping at the first that is malformed. */
  function AnswersAt(utf8: Label -> bool, msg: Message, pos: nat, n: nat): seq<Answer>
    decreases n
  {
    if n == 0 then []
    else match AnswerAt(utf8, msg, pos)
         case None => []
         case Some((a, next)) => [a] + AnswersAt(utf8, msg, next, n - 1)
  }

  function Dissected(utf8: Label -> bool, msg: Message): Option<Info> {
    if |msg| < 12 then None
    else
      var flags := U16At(msg, 2);
      if flags / 0x800 % 16 != 0 then None
      else
        match QuestionsAt(utf8, msg, 12, U16At(msg, 4))
        case None => None
        case Some(qs) =>
          Some(Info(flags >= 0x8000, flags % 16, qs.items, AnswersAt(utf8, msg, qs.next, U16At(msg, 6))))
  }

  method Dissect(utf8: Label -> bool, msg: Message) returns (r: Option<Info>)
    ensures r == Dissected(utf8, msg)
  {
    if |msg| < 12 {
      return None;
    }
    var flags := U16At(msg, 2);
    var opcode := flags / 0x800 % 16;
    if opcode != 0 {
      return None;
    }
    var qs := ReadQuestions(utf8, msg, U16At(msg, 4));
    if qs.None? {
      return None;
    }
    var answers, end := ReadAnswers(utf8, msg, qs.value.next, U16At(msg, 6));
    return Some(Info(flags >= 0x8000, flags % 16, qs.value.items, answers));
  }

  /** The question loop: every turn moves the position forward, within the message. */
  method ReadQuestions(utf8: Label -> bool, msg: Message, qdcount: nat) returns (r: Option<Parsed<Question>>)
    requires |msg| >= 12
    ensures r == QuestionsAt(utf8, msg, 12, qdcount)
    ensures r.Some? ==> |r.value.items| == qdcount && 12 + 5 * qdcount <= r.value.next <= |msg|
  {
    var pos := 12;
    var questions: seq<Question> := [];
    hide QuestionsAt;
    hide QuestionAt;
    hide ReadFrom;
    hide Added;
    hide U16At;
    hide AsText;
    ghost var target := QuestionsAt(utf8, msg, 12, qdcount);
    AddedNone(target);
    for i := 0 to qdcount
      invariant |questions| == i && 12 + 5 * i <= pos <= |msg|
      invariant Added(questions, QuestionsAt(utf8, msg, pos, qdcount - i)) == target
    {
      QuestionsStep(utf8, msg, pos, qdcount - i, questions);
      var name, steps := ReadName(utf8, msg, pos);
      if name.None? {
        return None;
      }
      var at := name.value.next;
      if at + 4 > |msg| {
        return None;
      }
      var q := Question(name.value.text, U16At(msg, at));
      pos := at + 4;
      questions := questions + [q];
    }
    QuestionsEnd(utf8, msg, pos, questions);
    return Some(Parsed(questions, pos));
  }

  function Added<T>(items: seq<T>, rest: Option<Parsed<T>>): Option<Parsed<T>> {
    match rest
    case None => None
    case Some(p) => Some(Parsed(items + p.items, p.next))
  }

  lemma AddedNone<T>(rest: Option<Parsed<T>>)
    ensures Added([], rest) == rest
  {
    if rest.Some? {
      assert [] + rest.value.items == rest.value.items;
    }
  }

  lemma QuestionsStep(utf8: Label -> bool, msg: Message, pos: nat, n: nat, items: seq<Question>)
    requires n > 0
    ensures
      var done := Added(items, QuestionsAt(utf8, msg, pos, n));
      var name := AsText(ReadFrom(utf8, msg, pos, 0, 0));
      if name.None? || name.value.next + 4 > |msg| then done == None
      else
        var at := name.value.next;
        done == Added(items + [Question(name.value.text, U16At(msg, at))], QuestionsAt(utf8, msg, at + 4, n - 1))
  {
    hide ReadFrom;
    hide U16At;
    hide AsText;
    var name := AsText(ReadFrom(utf8, msg, pos, 0, 0));
    if name.Some? && name.value.next + 4 <= |msg| {
      var rest := QuestionsAt(utf8, msg, name.value.next + 4, n - 1);
      if rest.Some? {
        Regroup(items, [Question(name.value.text, U16At(msg, name.value.next))], rest.value.items);
      }
    }
  }

  lemma QuestionsEnd(utf8: Label -> bool, msg: Message, pos: nat, items: seq<Question>)
    ensures Added(items, QuestionsAt(utf8, msg, pos, 0)) == Some(Parsed(items, pos))
  {
    assert items + [] == items;
  }

  /**
   * The answer loop: stops at the first malformed answer, keeping those before it. Every answer moves it on by at
   * least eleven bytes, to an `end` within the message where no answer can be read.
   */
  method ReadAnswers(utf8: Label -> bool, msg: Message, start: nat, ancount: nat)
    returns (answers: seq<Answer>, ghost end: nat)
    requires start <= |msg|
    ensures answers == AnswersAt(utf8, msg, start, ancount)
    ensures |answers| <= ancount && start + 11 * |answers| <= end <= |msg|
    ensures AnswersAt(utf8, msg, end, ancount - |answers|) == []
  {
    hide AnswersAt;
    hide ReadFrom;
    hide U16At;
    hide U32At;
    hide AsText;
    hide WithData;
    var pos := start;
    answers, end := [], start;
    for i := 0 to ancount
      invariant |answers| == i && start + 11 * i <= pos == end <= |msg|
      invariant answers + AnswersAt(utf8, msg, pos, ancount - i) == AnswersAt(utf8, msg, start, ancount)
    {
      AnswersStep(utf8, msg, pos, ancount - i, answers);
      var name, steps := ReadName(utf8, msg, pos);
      if name.None? || name.value.next + 10 > |msg| {
        AnswersStep(utf8, msg, pos, ancount - i, []);
        return;
      }
      var at := name.value.next;
      var rtype := U16At(msg, at);
      var ttl := U32At(msg, at + 4);
      var rdlength := U16At(msg, at + 8);
      if at + 10 + rdlength > |msg| {
        AnswersStep(utf8, msg, pos, ancount - i, []);
        return;
      }
      var answer := ReadData(utf8, msg, at + 10, rtype, rdlength, Answer(name.value.text, None, None, ttl));
      pos, end := at + 10 + rdlength, at + 10 + rdlength;
      answers := answers + [answer];
    }
    AnswersEnd(utf8, msg, pos, answers);
    AnswersEnd(utf8, msg, pos, []);
  }

  method ReadData(utf8: Label -> bool, msg: Message, pos: nat, rtype: u16, rdlength: nat, a: Answer)
    returns (answer: Answer)
    requires pos + rdlength <= |msg|
    ensures answer == WithData(utf8, msg, pos, rtype, rdlength, a)
  {
    hide ReadFrom;
    answer := a;
    if rtype == TYPE_A && rdlength == 4 {
      answer := answer.(addr := Some(V4(msg[pos..pos + 4])));
    } else if rtype == TYPE_AAAA && rdlength == 16 {
      answer := answer.(addr := Some(V6(msg[pos..pos + 16])));
    } else if rtype == TYPE_CNAME {
      var target, steps := ReadName(utf8, msg, pos);
      if target.Some? {
        answer := answer.(cname := Some(target.value.text));
      }
    }
  }

  lemma AnswersStep(utf8: Label -> bool, msg: Message, pos: nat, n: nat, items: seq<Answer>)
    requires n > 0
    ensures
      var done := items + AnswersAt(utf8, msg, pos, n);
      var name := AsText(ReadFrom(utf8, msg, pos, 0, 0));
      if name.None? || name.value.next + 10 > |msg| then done == items
      else
        var at := name.value.next;
        var len := U16At(msg, at + 8);
        if at + 10 + len > |msg| then done == items
        else
          var blank := Answer(name.value.text, None, None, U32At(msg, at + 4));
          done == items + [WithData(utf8, msg, at + 10, U16At(msg, at), len, blank)] +
            AnswersAt(utf8, msg, at + 10 + len, n - 1)
  {
    hide ReadFrom;
    hide U16At;
    hide U32At;
    hide AsText;
    hide WithData;
    match AnswerAt(utf8, msg, pos)
    case None => assert items + [] == items;
    case Some((a, next)) => Regroup(items, [a], AnswersAt(utf8, msg, next, n - 1));
  }

  lemma AnswersEnd(utf8: Label -> bool, msg: Message, pos: nat, items: seq<Answer>)
    ensures items + AnswersAt(utf8, msg, pos, 0) == items
  {
  }

  // ---------------------------------------------------------------- the numbers of the format

  /** Fields are in network byte order. */
  lemma FieldsAre(msg: Message, pos: nat)
    ensures pos + 2 <= |msg| ==> U16At(msg, pos) == (msg[pos] as int) * 256 + msg[pos + 1]
    ensures pos + 4 <= |msg| ==>
              U32At(msg, pos) ==
              (msg[pos] as int) * 0x100_0000 + (msg[pos + 1] as int) * 0x1_0000 +
              (msg[pos + 2] as int) * 256 + msg[pos + 3]
  {
    if pos + 2 <= |msg| {
      var s := msg[pos..pos + 2];
      assert Reverse(s) == [s[1], s[0]];
      FromTwo(s[1], s[0]);
    }
    if pos + 4 <= |msg| {
      var s := msg[pos..pos + 4];
      assert Reverse(s) == [s[3], s[2], s[1], s[0]];
      FromFour(s[3], s[2], s[1], s[0]);
    }
  }

  lemma FromTwo(a: byte, b: byte)
    ensures FromLe([a, b]) == a + 256 * b
  {
    assert [a, b][1..] == [b] && [b][1..] == [];
    assert FromLe([b]) == b;
  }

  lemma FromFour(a: byte, b: byte, c: byte, d: byte)
    ensures FromLe([a, b, c, d]) == a + 256 * b + 0x1_0000 * c + 0x100_0000 * d
  {
    assert [a, b, c, d][1..] == [b, c, d] && [b, c, d][1..] == [c, d];
    FromTwo(c, d);
    assert FromLe([b, c, d]) == b + 256 * FromLe([c, d]);
  }

  /** A byte of 192 or more and the one after it point at an offset of fourteen bits. */
  lemma PointersAre(msg: Message, pos: nat)
    requires pos + 1 < |msg|
    ensures PointerByte(msg[pos]) <==> (msg[pos] as int) / 64 == 3
    ensures PointerByte(msg[pos]) ==> PointerAt(msg, pos) == (msg[pos] as int) % 64 * 256 + msg[pos + 1]
  {
  }

  /** Data of type 1 is an address of four bytes, of type 28 one of sixteen, of type 5 a name; the rest adds nothing. */
  lemma DataByType(utf8: Label -> bool, msg: Message, pos: nat, rtype: u16, len: nat, a: Answer)
    requires pos + len <= |msg|
    ensures
      var r := WithData(utf8, msg, pos, rtype, len, a);
      && r.name == a.name && r.ttl == a.ttl
      && (rtype == 1 && len == 4 ==> r.addr == Some(V4(msg[pos..pos + 4])) && r.cname == a.cname)
      && (rtype == 28 && len == 16 ==> r.addr == Some(V6(msg[pos..pos + 16])) && r.cname == a.cname)
      && (rtype == 5 ==>
            var name := ReadFrom(utf8, msg, pos, 0, 0);
            r == if name.Some? then a.(cname := Some(Join(name.value.labels))) else a)
      && (rtype !in {1, 5, 28} || (rtype == 1 && len != 4) || (rtype == 28 && len != 16) ==> r == a)
  {
    hide ReadFrom;
  }

  /**
   * What a header says, bit by bit: only standard queries are dissected, the top bit is that of a response, and the low
   * four bits are the response code.
   */
  lemma HeaderBits(utf8: Label -> bool, msg: Message)
    ensures |msg| < 12 || (msg[2] as int) / 8 % 16 != 0 ==> Dissected(utf8, msg) == None
    ensures Dissected(utf8, msg).Some? ==>
              var info := Dissected(utf8, msg).value;
              && (info.isResponse <==> msg[2] >= 128) && info.rcode == (msg[3] as int) % 16
              && |info.questions| == (msg[4] as int) * 256 + msg[5]
              && |info.answers| <= (msg[6] as int) * 256 + msg[7]
  {
    hide U16At;
    hide QuestionsAt;
    hide AnswersAt;
    if |msg| >= 12 {
      FieldsAre(msg, 2);
      FieldsAre(msg, 4);
      FieldsAre(msg, 6);
      OpcodeBits(msg[2], msg[3]);
      var qs := QuestionsAt(utf8, msg, 12, U16At(msg, 4));
      QuestionCount(utf8, msg, 12, U16At(msg, 4));
      if qs.Some? {
        AnswerCount(utf8, msg, qs.value.next, U16At(msg, 6));
      }
    }
  }

  lemma OpcodeBits(high: byte, low: byte)
    ensures ((high as int) * 256 + low) / 0x800 % 16 == high / 8 % 16
    ensures ((high as int) * 256 + low) % 16 == low % 16 && ((high as int) * 256 + low >= 0x8000 <==> high >= 128)
  {
    assert ((high as int) * 256 + low) / 0x800 == high / 8;
  }

  lemma {:induction false} QuestionCount(utf8: Label -> bool, msg: Message, pos: nat, n: nat)
    ensures QuestionsAt(utf8, msg, pos, n).Some? ==> |QuestionsAt(utf8, msg, pos, n).value.items| == n
    decreases n
  {
    hide QuestionAt;
    if n > 0 && QuestionAt(utf8, msg, pos).Some? {
      QuestionCount(utf8, msg, QuestionAt(utf8, msg, pos).value.1, n - 1);
    }
  }

  lemma {:induction false} AnswerCount(utf8: Label -> bool, msg: Message, pos: nat, n: nat)
    ensures |AnswersAt(utf8, msg, pos, n)| <= n
    decreases n
  {
    hide AnswerAt;
    if n > 0 && AnswerAt(utf8, msg, pos).Some? {
      AnswerCount(utf8, msg, AnswerAt(utf8, msg, pos).value.1, n - 1);
    }
  }
}
