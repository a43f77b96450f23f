/**
 * Writing DNS messages with compressed names, and what the dissector reads from them. A name carries the labels it is
 * meant to stand for; whether it does is a matter of what the message spells, not of the reader.
 */
module DnsMessages {
  import opened Wrappers
  import opened Bytes
  import opened Dns

  // ---------------------------------------------------------------- names that stand for their labels

  /** A written name and the labels it is meant to stand for. */
  datatype Named = Named(written: Written, labels: seq<Label>)

  /** Something is laid out at `p` that spells these labels through so many pointers. */
  ghost predicate Laid(msg: Message, p: nat, labels: seq<Label>, pointers: nat) {
    exists shape :: Spells(msg, p, shape, labels) && Pointers(shape) == pointers
  }

  /**
   * The name stands for its labels: all of them written out, or the first of them and then a pointer to where the
   * message spells the others, in at most 15 further pointers.
   */
  ghost predicate Stands(msg: Message, n: Named) {
    && Writable(n.written) && |n.labels| <= MAX_LABELS
    && match n.written.suffixAt
       case None => n.labels == n.written.labels
       case Some(p) =>
         && n.written.labels <= n.labels
         && exists k :: 0 <= k < MAX_POINTER_JUMPS && Laid(msg, p, n.labels[|n.written.labels|..], k)
  }

  lemma StandsMeans(utf8: Label -> bool, msg: Message, n: Named)
    requires Stands(msg, n) && AllText(utf8, n.labels)
    ensures |n.written.labels| <= MAX_LABELS && AllText(utf8, n.written.labels)
    ensures Meaning(utf8, msg, n.written, 0, 0) == Some(n.labels)
  {
    hide Spells;
    hide ReadFrom;
    var front := n.written.labels;
    assert forall i :: 0 <= i < |front| ==> front[i] == n.labels[i];
    match n.written.suffixAt
    case None =>
    case Some(p) =>
      var suffix := n.labels[|front|..];
      var k :| 0 <= k < MAX_POINTER_JUMPS && Laid(msg, p, suffix, k);
      var shape :| Spells(msg, p, shape, suffix) && Pointers(shape) == k;
      SpelledIsRead(utf8, msg, p, shape, suffix, 1, |front|);
      assert front + suffix == n.labels;
  }

  /** A name that stands for its labels is read as their text, ending just past its own bytes. */
  lemma NameReads(utf8: Label -> bool, msg: Message, pos: nat, n: Named)
    requires Stands(msg, n) && AllText(utf8, n.labels) && At(msg, pos, WrittenBytes(n.written))
    ensures AsText(ReadFrom(utf8, msg, pos, 0, 0)) == Some(TextName(Join(n.labels), pos + |WrittenBytes(n.written)|))
  {
    hide ReadFrom;
    hide At;
    hide Join;
    hide Meaning;
    hide WrittenBytes;
    StandsMeans(utf8, msg, n);
    WrittenReads(utf8, msg, pos, n.written, 0, 0);
  }

  // ---------------------------------------------------------------- questions and answers as written

  datatype WrittenQuestion = WrittenQuestion(name: Named, qtype: u16, qclass: u16)

  datatype Data =
    | DataV4(octets: seq<byte>)
    | DataV6(octets: seq<byte>)
    | DataName(name: Named)
    | DataOther(rtype: u16, bytes: seq<byte>)

  datatype WrittenAnswer = WrittenAnswer(name: Named, rclass: u16, ttl: u32, data: Data)

  function Be(n: nat, w: nat): (s: seq<byte>)
    ensures |s| == w
  {
    Reverse(Le(n, w))
  }

  function QuestionBytes(q: WrittenQuestion): seq<byte>
    requires Writable(q.name.written)
  {
    WrittenBytes(q.name.written) + (Be(q.qtype, 2) + Be(q.qclass, 2))
  }

  function TypeOf(d: Data): u16 {
    match d
    case DataV4(_) => TYPE_A
    case DataV6(_) => TYPE_AAAA
    case DataName(_) => TYPE_CNAME
    case DataOther(rtype, _) => rtype
  }

  predicate DataWritable(d: Data) {
    match d
    case DataV4(octets) => |octets| == 4
    case DataV6(octets) => |octets| == 16
    case DataName(n) => Writable(n.written) && |WrittenBytes(n.written)| < 0x1_0000
    case DataOther(rtype, bytes) => rtype !in {TYPE_A, TYPE_AAAA, TYPE_CNAME} && |bytes| < 0x1_0000
  }

  function DataBytes(d: Data): seq<byte>
    requires DataWritable(d)
  {
    match d
    case DataV4(octets) => octets
    case DataV6(octets) => octets
    case DataName(n) => WrittenBytes(n.written)
    case DataOther(_, bytes) => bytes
  }

  predicate AnswerWritable(a: WrittenAnswer) { Writable(a.name.written) && DataWritable(a.data) }

  function AnswerBytes(a: WrittenAnswer): seq<byte>
    requires AnswerWritable(a)
  {
    var data := DataBytes(a.data);
    WrittenBytes(a.name.written) +
    (Be(TypeOf(a.data), 2) + (Be(a.rclass, 2) + (Be(a.ttl, 4) + (Be(|data|, 2) + data))))
  }

  predicate QuestionsWritable(qs: seq<WrittenQuestion>) { forall i :: 0 <= i < |qs| ==> Writable(qs[i].name.written) }

  predicate AnswersWritable(rs: seq<WrittenAnswer>) { forall i :: 0 <= i < |rs| ==> AnswerWritable(rs[i]) }

  function AllQuestionBytes(qs: seq<WrittenQuestion>): seq<byte>
    requires QuestionsWritable(qs)
  {
    if qs == [] then [] else QuestionBytes(qs[0]) + AllQuestionBytes(qs[1..])
  }

  function AllAnswerBytes(rs: seq<WrittenAnswer>): seq<byte>
    requires AnswersWritable(rs)
  {
    if rs == [] then [] else AnswerBytes(rs[0]) + AllAnswerBytes(rs[1..])
  }

  /** A header, the questions and the answers. */
  function MessageBytes(id: u16, flags: u16, counts: seq<byte>, qs: seq<WrittenQuestion>,
      rs: seq<WrittenAnswer>): seq<byte>
    requires QuestionsWritable(qs) && AnswersWritable(rs)
  {
    Be(id, 2) + (Be(flags, 2) + (Be(|qs|, 2) + (Be(|rs|, 2) + (counts + (AllQuestionBytes(qs) + AllAnswerBytes(rs))))))
  }

  // ---------------------------------------------------------------- what they should be read as

  function ExpectedQuestions(qs: seq<WrittenQuestion>): seq<Question> {
    seq(|qs|, i requires 0 <= i < |qs| => Question(Join(qs[i].name.labels), qs[i].qtype))
  }

  /** What the dissector should report of an answer's data. */
  function WithWritten(d: Data, a: Answer): Answer {
    match d
    case DataV4(octets) => a.(addr := Some(V4(octets)))
    case DataV6(octets) => a.(addr := Some(V6(octets)))
    case DataName(n) => a.(cname := Some(Join(n.labels)))
    case DataOther(_, _) => a
  }

  function ExpectedAnswer(a: WrittenAnswer): Answer {
    WithWritten(a.data, Answer(Join(a.name.labels), None, None, a.ttl))
  }

  function ExpectedAnswers(rs: seq<WrittenAnswer>): seq<Answer> {
    seq(|rs|, i requires 0 <= i < |rs| => ExpectedAnswer(rs[i]))
  }

  /** Every name stands for its labels, which are valid text. */
  ghost predicate QuestionOk(utf8: Label -> bool, msg: Message, q: WrittenQuestion) {
    Stands(msg, q.name) && AllText(utf8, q.name.labels)
  }

  ghost predicate AnswerOk(utf8: Label -> bool, msg: Message, a: WrittenAnswer) {
    && Stands(msg, a.name) && AllText(utf8, a.name.labels) && AnswerWritable(a)
    && (a.data.DataName? ==> Stands(msg, a.data.name) && AllText(utf8, a.data.name.labels))
  }

  ghost predicate AllQuestionsOk(utf8: Label -> bool, msg: Message, qs: seq<WrittenQuestion>) {
    QuestionsWritable(qs) && forall i :: 0 <= i < |qs| ==> QuestionOk(utf8, msg, qs[i])
  }

  ghost predicate AllAnswersOk(utf8: Label -> bool, msg: Message, rs: seq<WrittenAnswer>) {
    AnswersWritable(rs) && forall i :: 0 <= i < |rs| ==> AnswerOk(utf8, msg, rs[i])
  }

  /** A field reads back as the value written there. */
  lemma FieldReads(msg: Message, pos: nat, n: nat)
    ensures n < 0x1_0000 && At(msg, pos, Be(n, 2)) ==> pos + 2 <= |msg| && U16At(msg, pos) == n
    ensures n < TWO_32 && At(msg, pos, Be(n, 4)) ==> pos + 4 <= |msg| && U32At(msg, pos) == n
  {
    WordsRoundTrip(n);
    ReverseTwice(Le(n, 2));
    ReverseTwice(Le(n, 4));
  }

  lemma QuestionReads(utf8: Label -> bool, msg: Message, pos: nat, q: WrittenQuestion)
    requires QuestionOk(utf8, msg, q) && At(msg, pos, QuestionBytes(q))
    ensures QuestionAt(utf8, msg, pos) == Some((Question(Join(q.name.labels), q.qtype), pos + |QuestionBytes(q)|))
  {
    hide ReadFrom;
    hide WrittenBytes;
    hide At;
    hide U16At;
    hide AllText;
    hide Join;
    hide Be;
    var name := WrittenBytes(q.name.written);
    AtParts(msg, pos, name, Be(q.qtype, 2) + Be(q.qclass, 2));
    AtParts(msg, pos + |name|, Be(q.qtype, 2), Be(q.qclass, 2));
    NameReads(utf8, msg, pos, q.name);
    FieldReads(msg, pos + |name|, q.qtype);
  }

  lemma {:induction false} QuestionsRead(utf8: Label -> bool, msg: Message, pos: nat, qs: seq<WrittenQuestion>)
    requires AllQuestionsOk(utf8, msg, qs) && At(msg, pos, AllQuestionBytes(qs))
    ensures QuestionsAt(utf8, msg, pos, |qs|) == Some(Parsed(ExpectedQuestions(qs), pos + |AllQuestionBytes(qs)|))
    decreases |qs|
  {
    hide QuestionAt;
    hide QuestionBytes;
    hide QuestionOk;
    hide Join;
    hide At;
    if qs != [] {
      var rest := AllQuestionBytes(qs[1..]);
      AtParts(msg, pos, QuestionBytes(qs[0]), rest);
      QuestionReads(utf8, msg, pos, qs[0]);
      QuestionsRead(utf8, msg, pos + |QuestionBytes(qs[0])|, qs[1..]);
      assert ExpectedQuestions(qs) == [Question(Join(qs[0].name.labels), qs[0].qtype)] + ExpectedQuestions(qs[1..]);
    } else {
      assert ExpectedQuestions(qs) == [];
    }
  }

  lemma DataReads(utf8: Label -> bool, msg: Message, pos: nat, d: Data, a: Answer)
    requires DataWritable(d) && At(msg, pos, DataBytes(d))
    requires d.DataName? ==> Stands(msg, d.name) && AllText(utf8, d.name.labels)
    ensures WithData(utf8, msg, pos, TypeOf(d), |DataBytes(d)|, a) == WithWritten(d, a)
  {
    hide ReadFrom;
    hide Join;
    if d.DataName? {
      NameReads(utf8, msg, pos, d.name);
    }
  }

  lemma AnswerReads(utf8: Label -> bool, msg: Message, pos: nat, a: WrittenAnswer)
    requires AnswerOk(utf8, msg, a) && At(msg, pos, AnswerBytes(a))
    ensures AnswerAt(utf8, msg, pos) == Some((ExpectedAnswer(a), pos + |AnswerBytes(a)|))
  {
    hide ReadFrom;
    hide WrittenBytes;
    hide WithData;
    hide WithWritten;
    hide Be;
    hide At;
    hide U16At;
    hide U32At;
    hide Join;
    hide Stands;
    hide AllText;
    var name, data := WrittenBytes(a.name.written), DataBytes(a.data);
    var p := pos + |name|;
    AtParts(msg, pos, name, Be(TypeOf(a.data), 2) + (Be(a.rclass, 2) + (Be(a.ttl, 4) + (Be(|data|, 2) + data))));
    AtParts(msg, p, Be(TypeOf(a.data), 2), Be(a.rclass, 2) + (Be(a.ttl, 4) + (Be(|data|, 2) + data)));
    AtParts(msg, p + 2, Be(a.rclass, 2), Be(a.ttl, 4) + (Be(|data|, 2) + data));
    AtParts(msg, p + 4, Be(a.ttl, 4), Be(|data|, 2) + data);
    AtParts(msg, p + 8, Be(|data|, 2), data);
    NameReads(utf8, msg, pos, a.name);
    FieldReads(msg, p, TypeOf(a.data));
    FieldReads(msg, p + 4, a.ttl);
    FieldReads(msg, p + 8, |data|);
    AtFits(msg, p + 10, data);
    DataReads(utf8, msg, p + 10, a.data, Answer(Join(a.name.labels), None, None, a.ttl));
  }

  lemma {:induction false} AnswersRead(utf8: Label -> bool, msg: Message, pos: nat, rs: seq<WrittenAnswer>)
    requires AllAnswersOk(utf8, msg, rs) && At(msg, pos, AllAnswerBytes(rs))
    ensures AnswersAt(utf8, msg, pos, |rs|) == ExpectedAnswers(rs)
    decreases |rs|
  {
    hide AnswerAt;
    hide AnswerBytes;
    hide AnswerOk;
    hide AnswerWritable;
    hide ExpectedAnswer;
    hide At;
    if rs != [] {
      var rest := AllAnswerBytes(rs[1..]);
      AtParts(msg, pos, AnswerBytes(rs[0]), rest);
      AnswerReads(utf8, msg, pos, rs[0]);
      AnswersRead(utf8, msg, pos + |AnswerBytes(rs[0])|, rs[1..]);
      assert ExpectedAnswers(rs) == [ExpectedAnswer(rs[0])] + ExpectedAnswers(rs[1..]);
    } else {
      assert ExpectedAnswers(rs) == [];
    }
  }

  /**
   * Message round trip: a message that starts with a standard-query header and these questions and answers, each name
   * standing for its labels, dissects to exactly the labels, addresses and fields meant.
   */
  lemma MessageRoundTrip(utf8: Label -> bool, msg: Message, id: u16, flags: u16, counts: seq<byte>,
                         qs: seq<WrittenQuestion>, rs: seq<WrittenAnswer>)
    requires |counts| == 4 && |qs| < 0x1_0000 && |rs| < 0x1_0000 && flags / 0x800 % 16 == 0
    requires AllQuestionsOk(utf8, msg, qs) && AllAnswersOk(utf8, msg, rs)
    requires MessageBytes(id, flags, counts, qs, rs) <= msg
    ensures Dissected(utf8, msg) == Some(Info(flags >= 0x8000, flags % 16, ExpectedQuestions(qs), ExpectedAnswers(rs)))
  {
    hide U16At;
    hide MessageBytes;
    hide QuestionsAt;
    hide AnswersAt;
    hide ExpectedQuestions;
    hide ExpectedAnswers;
    hide AllQuestionsOk;
    hide AllAnswersOk;
    hide QuestionsWritable;
    hide AnswersWritable;
    hide Be;
    hide At;
    hide AllQuestionBytes;
    hide AllAnswerBytes;
    OkIsWritable(utf8, msg, qs, rs);
    MessageHolds(msg, id, flags, counts, qs, rs);
    FieldReads(msg, 2, flags);
    FieldReads(msg, 4, |qs|);
    FieldReads(msg, 6, |rs|);
    QuestionsRead(utf8, msg, 12, qs);
    AnswersRead(utf8, msg, 12 + |AllQuestionBytes(qs)|, rs);
  }

  lemma OkIsWritable(utf8: Label -> bool, msg: Message, qs: seq<WrittenQuestion>, rs: seq<WrittenAnswer>)
    requires AllQuestionsOk(utf8, msg, qs) && AllAnswersOk(utf8, msg, rs)
    ensures QuestionsWritable(qs) && AnswersWritable(rs)
  {
  }

  lemma MessageHolds(msg: Message, id: u16, flags: u16, counts: seq<byte>, qs: seq<WrittenQuestion>,
      rs: seq<WrittenAnswer>)
    requires |counts| == 4 && |qs| < 0x1_0000 && |rs| < 0x1_0000
    requires QuestionsWritable(qs) && AnswersWritable(rs) && MessageBytes(id, flags, counts, qs, rs) <= msg
    ensures |msg| >= 12 && At(msg, 2, Be(flags, 2)) && At(msg, 4, Be(|qs|, 2)) && At(msg, 6, Be(|rs|, 2))
    ensures At(msg, 12, AllQuestionBytes(qs)) && At(msg, 12 + |AllQuestionBytes(qs)|, AllAnswerBytes(rs))
  {
    hide Be;
    hide At;
    hide AllQuestionBytes;
    hide AllAnswerBytes;
    hide QuestionsWritable;
    hide AnswersWritable;
    var qb, ab := AllQuestionBytes(qs), AllAnswerBytes(rs);
    MessageParts(msg, Be(id, 2), Be(flags, 2), Be(|qs|, 2), Be(|rs|, 2), counts, qb, ab);
  }

  lemma MessageParts(msg: Message, a: seq<byte>, b: seq<byte>, c: seq<byte>, d: seq<byte>, counts: seq<byte>,
                     qb: seq<byte>, ab: seq<byte>)
    requires |a| == |b| == |c| == |d| == 2 && |counts| == 4
    requires a + (b + (c + (d + (counts + (qb + ab))))) <= msg
    ensures |msg| >= 12 && At(msg, 2, b) && At(msg, 4, c) && At(msg, 6, d) && At(msg, 12, qb) && At(msg, 12 + |qb|, ab)
  {
    var whole := a + (b + (c + (d + (counts + (qb + ab)))));
    assert At(msg, 0, whole) by { assert msg[0..|whole|] == whole; }
    hide At;
    AtParts(msg, 0, a, b + (c + (d + (counts + (qb + ab)))));
    AtParts(msg, 2, b, c + (d + (counts + (qb + ab))));
    AtParts(msg, 4, c, d + (counts + (qb + ab)));
    AtParts(msg, 6, d, counts + (qb + ab));
    AtParts(msg, 8, counts, qb + ab);
    AtParts(msg, 12, qb, ab);
  }

  // ---------------------------------------------------------------- an encoder

  /** Labels written earlier: where, and through how many pointers they are spelled from there. */
  datatype Entry = Entry(labels: seq<Label>, at: nat, pointers: nat)

  predicate Usable(e: Entry) { e.at < 0x4000 && e.pointers < MAX_POINTER_JUMPS }

  /** The last usable entry for these labels. */
  function Find(dict: seq<Entry>, labels: seq<Label>): (r: Option<Entry>)
    ensures r.Some? ==> r.value in dict && r.value.labels == labels && Usable(r.value)
  {
    if dict == [] then None
    else
      var e := dict[|dict| - 1];
      if e.labels == labels && Usable(e) then Some(e) else Find(dict[..|dict| - 1], labels)
  }

  /** A name as emitted, and the suffixes it makes available to later names. */
  datatype Emitted = Emitted(written: Written, added: seq<Entry>, pointers: nat)

  predicate NameLabels(labels: seq<Label>) { forall i :: 0 <= i < |labels| ==> 1 <= |labels[i]| <= 63 }

  /** Write labels until the rest has been written before, and point there. */
  function Emit(dict: seq<Entry>, labels: seq<Label>, pos: nat): (e: Emitted)
    requires NameLabels(labels)
    ensures Writable(e.written) && e.written.labels <= labels
    decreases |labels|
  {
    if labels == [] then Emitted(Written([], None), [], 0)
    else
      match Find(dict, labels)
      case Some(e) => Emitted(Written([], Some(e.at)), [], e.pointers + 1)
      case None =>
        var rest := Emit(dict, labels[1..], pos + 1 + |labels[0]|);
        assert labels == [labels[0]] + labels[1..];
        Emitted(Written([labels[0]] + rest.written.labels, rest.written.suffixAt),
                [Entry(labels, pos, rest.pointers)] + rest.added, rest.pointers)
  }

  ghost predicate AllLaid(msg: Message, dict: seq<Entry>) {
    forall e :: e in dict ==> Laid(msg, e.at, e.labels, e.pointers)
  }

  lemma PrependWritten(piece: Label, w: Written)
    requires 1 <= |piece| <= 63 && Writable(w)
    ensures
      var longer := Written([piece] + w.labels, w.suffixAt);
      Writable(longer) && WrittenBytes(longer) == [|piece|] + piece + WrittenBytes(w)
  {
    var longer := Written([piece] + w.labels, w.suffixAt);
    assert longer.labels[1..] == w.labels;
    assert longer.(labels := longer.labels[1..]) == w;
  }

  /**
   * In a message that holds it and the entries before it, an emitted name spells its labels, and so do its suffixes.
   */
  lemma {:induction false} EmitSpells(msg: Message, dict: seq<Entry>, labels: seq<Label>, pos: nat)
    requires NameLabels(labels) && AllLaid(msg, dict) && At(msg, pos, WrittenBytes(Emit(dict, labels, pos).written))
    ensures
      var e := Emit(dict, labels, pos);
      e.pointers <= MAX_POINTER_JUMPS && Laid(msg, pos, labels, e.pointers) && AllLaid(msg, e.added)
    decreases |labels|
  {
    hide At;
    if labels == [] {
      RootSpells(msg, pos);
    } else if Find(dict, labels).Some? {
      var e := Find(dict, labels).value;
      var shape :| Spells(msg, e.at, shape, labels) && Pointers(shape) == e.pointers;
      PointerSpells(msg, pos, e.at, shape, labels);
    } else {
      var piece := labels[0];
      var rest := Emit(dict, labels[1..], pos + 1 + |piece|);
      PrependWritten(piece, rest.written);
      AtParts(msg, pos, [|piece|] + piece, WrittenBytes(rest.written));
      EmitSpells(msg, dict, labels[1..], pos + 1 + |piece|);
      var shape :| Spells(msg, pos + 1 + |piece|, shape, labels[1..]) && Pointers(shape) == rest.pointers;
      LabelSpells(msg, pos, shape, labels);
    }
  }

  lemma RootSpells(msg: Message, pos: nat)
    requires At(msg, pos, WrittenBytes(Written([], None)))
    ensures Laid(msg, pos, [], 0)
  {
    FirstBytes(msg, pos, [0]);
    AtFits(msg, pos, [0]);
    assert msg[pos + 0] == [0][0];
    assert Spells(msg, pos, Root, []) && Pointers(Root) == 0;
  }

  lemma PointerSpells(msg: Message, pos: nat, p: nat, shape: Shape, labels: seq<Label>)
    requires p < 0x4000 && Spells(msg, p, shape, labels) && At(msg, pos, WrittenBytes(Written([], Some(p))))
    ensures Laid(msg, pos, labels, Pointers(shape) + 1)
  {
    FirstBytes(msg, pos, [0xC0 + p / 256, p % 256]);
    AtFits(msg, pos, [0xC0 + p / 256, p % 256]);
    assert PointerAt(msg, pos) == p;
    assert Spells(msg, pos, Pointed(shape), labels) && Pointers(Pointed(shape)) == Pointers(shape) + 1;
  }

  lemma LabelSpells(msg: Message, pos: nat, shape: Shape, labels: seq<Label>)
    requires labels != [] && 1 <= |labels[0]| <= 63 && At(msg, pos, [|labels[0]|] + labels[0])
    requires Spells(msg, pos + 1 + |labels[0]|, shape, labels[1..])
    ensures Laid(msg, pos, labels, Pointers(shape))
  {
    var piece := labels[0];
    AtParts(msg, pos, [|piece|], piece);
    FirstBytes(msg, pos, [|piece|]);
    assert Spells(msg, pos, Labelled(shape), labels) && Pointers(Labelled(shape)) == Pointers(shape);
  }

  /** The emitted name, with its labels. */
  function Name(dict: seq<Entry>, labels: seq<Label>, pos: nat): Named
    requires NameLabels(labels)
  {
    Named(Emit(dict, labels, pos).written, labels)
  }

  lemma {:induction false} SuffixIsEntry(dict: seq<Entry>, labels: seq<Label>, pos: nat) returns (e: Entry)
    requires NameLabels(labels) && Emit(dict, labels, pos).written.suffixAt.Some?
    ensures
      var w := Emit(dict, labels, pos).written;
      e in dict && Usable(e) && e.at == w.suffixAt.value && e.labels == labels[|w.labels|..]
    decreases |labels|
  {
    if Find(dict, labels).Some? {
      e := Find(dict, labels).value;
      assert labels[0..] == labels;
    } else {
      e := SuffixIsEntry(dict, labels[1..], pos + 1 + |labels[0]|);
      var k := |Emit(dict, labels[1..], pos + 1 + |labels[0]|).written.labels|;
      assert labels[1..][k..] == labels[k + 1..];
    }
  }

  lemma {:induction false} FullWhenUnpointed(dict: seq<Entry>, labels: seq<Label>, pos: nat)
    requires NameLabels(labels) && Emit(dict, labels, pos).written.suffixAt.None?
    ensures Emit(dict, labels, pos).written.labels == labels
    decreases |labels|
  {
    if labels != [] {
      FullWhenUnpointed(dict, labels[1..], pos + 1 + |labels[0]|);
      assert labels == [labels[0]] + labels[1..];
    }
  }

  /** An emitted name stands for its labels. */
  lemma EmitStands(msg: Message, dict: seq<Entry>, labels: seq<Label>, pos: nat)
    requires NameLabels(labels) && |labels| <= MAX_LABELS && AllLaid(msg, dict)
    ensures Stands(msg, Name(dict, labels, pos))
  {
    hide Emit;
    hide Laid;
    if Emit(dict, labels, pos).written.suffixAt.Some? {
      var e := SuffixIsEntry(dict, labels, pos);
    } else {
      FullWhenUnpointed(dict, labels, pos);
    }
  }

  // ---------------------------------------------------------------- encoding a whole message

  datatype PlainQuestion = PlainQuestion(labels: seq<Label>, qtype: u16, qclass: u16)

  datatype PlainData =
    | PlainV4(octets: seq<byte>)
    | PlainV6(octets: seq<byte>)
    | Canonical(labels: seq<Label>)
    | PlainOther(rtype: u16, bytes: seq<byte>)

  datatype PlainAnswer = PlainAnswer(labels: seq<Label>, rclass: u16, ttl: u32, data: PlainData)

  predicate NameFits(labels: seq<Label>) { NameLabels(labels) && |labels| <= MAX_LABELS }

  predicate DataFits(d: PlainData) {
    match d
    case PlainV4(octets) => |octets| == 4
    case PlainV6(octets) => |octets| == 16
    case Canonical(labels) => NameFits(labels)
    case PlainOther(rtype, bytes) => rtype !in {TYPE_A, TYPE_AAAA, TYPE_CNAME} && |bytes| < 0x1_0000
  }

  predicate QuestionsFit(qs: seq<PlainQuestion>) { forall i :: 0 <= i < |qs| ==> NameFits(qs[i].labels) }

  predicate AnswerFits(a: PlainAnswer) { NameFits(a.labels) && DataFits(a.data) }

  predicate AnswersFit(rs: seq<PlainAnswer>) { forall i :: 0 <= i < |rs| ==> AnswerFits(rs[i]) }

  datatype Questions = Questions(items: seq<WrittenQuestion>, dict: seq<Entry>, pos: nat)

  datatype Answers = Answers(items: seq<WrittenAnswer>, dict: seq<Entry>)

  function EncodeQuestion(dict: seq<Entry>, pos: nat, q: PlainQuestion): (w: WrittenQuestion)
    requires NameFits(q.labels)
    ensures Writable(w.name.written)
  {
    WrittenQuestion(Name(dict, q.labels, pos), q.qtype, q.qclass)
  }

  function DictAfterQuestion(dict: seq<Entry>, pos: nat, q: PlainQuestion): seq<Entry>
    requires NameFits(q.labels)
  {
    dict + Emit(dict, q.labels, pos).added
  }

  /** Question after question, each free to point into those before it. */
  function EncodeQuestions(dict: seq<Entry>, pos: nat, qs: seq<PlainQuestion>): (e: Questions)
    requires QuestionsFit(qs)
    ensures QuestionsWritable(e.items) && e.pos == pos + |AllQuestionBytes(e.items)|
    decreases |qs|
  {
    if qs == [] then Questions([], dict, pos)
    else
      var w := EncodeQuestion(dict, pos, qs[0]);
      var rest := EncodeQuestions(DictAfterQuestion(dict, pos, qs[0]), pos + |QuestionBytes(w)|, qs[1..]);
      assert ([w] + rest.items)[1..] == rest.items;
      Questions([w] + rest.items, rest.dict, rest.pos)
  }

  lemma {:induction false} WrittenLength(w: Written)
    requires Writable(w)
    ensures |WrittenBytes(w)| <= 64 * |w.labels| + 2
    decreases |w.labels|
  {
    if w.labels != [] {
      WrittenLength(w.(labels := w.labels[1..]));
    }
  }

  function NameAt(dict: seq<Entry>, labels: seq<Label>, pos: nat): (n: Named)
    requires NameFits(labels)
    ensures Writable(n.written) && |WrittenBytes(n.written)| < 0x1_0000 && n.labels == labels
  {
    var n := Name(dict, labels, pos);
    WrittenLength(n.written);
    n
  }

  function EncodeData(dict: seq<Entry>, pos: nat, d: PlainData): (w: Data)
    requires DataFits(d)
    ensures DataWritable(w)
  {
    match d
    case PlainV4(octets) => DataV4(octets)
    case PlainV6(octets) => DataV6(octets)
    case Canonical(labels) => DataName(NameAt(dict, labels, pos))
    case PlainOther(rtype, bytes) => DataOther(rtype, bytes)
  }

  function AddedByData(dict: seq<Entry>, pos: nat, d: PlainData): seq<Entry>
    requires DataFits(d)
  {
    if d.Canonical? then Emit(dict, d.labels, pos).added else []
  }

  /** The dictionary after the owner name, and where the data starts. */
  function DictForData(dict: seq<Entry>, pos: nat, a: PlainAnswer): seq<Entry>
    requires AnswerFits(a)
  {
    dict + Emit(dict, a.labels, pos).added
  }

  function DataPos(dict: seq<Entry>, pos: nat, a: PlainAnswer): nat
    requires AnswerFits(a)
  {
    pos + |WrittenBytes(NameAt(dict, a.labels, pos).written)| + 10
  }

  function EncodeAnswer(dict: seq<Entry>, pos: nat, a: PlainAnswer): (w: WrittenAnswer)
    requires AnswerFits(a)
    ensures AnswerWritable(w)
  {
    WrittenAnswer(NameAt(dict, a.labels, pos), a.rclass, a.ttl,
                  EncodeData(DictForData(dict, pos, a), DataPos(dict, pos, a), a.data))
  }

  function DictAfter(dict: seq<Entry>, pos: nat, a: PlainAnswer): seq<Entry>
    requires AnswerFits(a)
  {
    DictForData(dict, pos, a) + AddedByData(DictForData(dict, pos, a), DataPos(dict, pos, a), a.data)
  }

  function EncodeAnswers(dict: seq<Entry>, pos: nat, rs: seq<PlainAnswer>): (e: Answers)
    requires AnswersFit(rs)
    ensures AnswersWritable(e.items)
    decreases |rs|
  {
    if rs == [] then Answers([], dict)
    else
      var w := EncodeAnswer(dict, pos, rs[0]);
      var rest := EncodeAnswers(DictAfter(dict, pos, rs[0]), pos + |AnswerBytes(w)|, rs[1..]);
      Answers([w] + rest.items, rest.dict)
  }

  function Encode(id: u16, flags: u16, counts: seq<byte>, qs: seq<PlainQuestion>, rs: seq<PlainAnswer>): seq<byte>
    requires QuestionsFit(qs) && AnswersFit(rs)
  {
    var q := EncodeQuestions([], 12, qs);
    MessageBytes(id, flags, counts, q.items, EncodeAnswers(q.dict, q.pos, rs).items)
  }

  // ---------------------------------------------------------------- and reading it back

  predicate QuestionsText(utf8: Label -> bool, qs: seq<PlainQuestion>) {
    forall i :: 0 <= i < |qs| ==> AllText(utf8, qs[i].labels)
  }

  predicate AnswerText(utf8: Label -> bool, a: PlainAnswer) {
    AllText(utf8, a.labels) && (a.data.Canonical? ==> AllText(utf8, a.data.labels))
  }

  predicate AnswersText(utf8: Label -> bool, rs: seq<PlainAnswer>) {
    forall i :: 0 <= i < |rs| ==> AnswerText(utf8, rs[i])
  }

  lemma LaidTogether(msg: Message, a: seq<Entry>, b: seq<Entry>)
    ensures AllLaid(msg, a + b) <==> AllLaid(msg, a) && AllLaid(msg, b)
  {
    hide Laid;
    forall e
      ensures e in a + b <==> e in a || e in b
    {
    }
  }

  lemma QuestionStands(utf8: Label -> bool, msg: Message, dict: seq<Entry>, pos: nat, q: PlainQuestion)
    requires NameFits(q.labels) && AllText(utf8, q.labels) && AllLaid(msg, dict)
    requires At(msg, pos, QuestionBytes(EncodeQuestion(dict, pos, q)))
    ensures QuestionOk(utf8, msg, EncodeQuestion(dict, pos, q)) && AllLaid(msg, DictAfterQuestion(dict, pos, q))
  {
    hide At;
    hide AllLaid;
    hide Emit;
    hide Stands;
    hide AllText;
    hide Be;
    var w := EncodeQuestion(dict, pos, q);
    AtParts(msg, pos, WrittenBytes(w.name.written), Be(w.qtype, 2) + Be(w.qclass, 2));
    EmitSpells(msg, dict, q.labels, pos);
    EmitStands(msg, dict, q.labels, pos);
    LaidTogether(msg, dict, Emit(dict, q.labels, pos).added);
  }

  lemma {:induction false} QuestionsStand(utf8: Label -> bool, msg: Message, dict: seq<Entry>, pos: nat,
      qs: seq<PlainQuestion>)
    requires QuestionsFit(qs) && QuestionsText(utf8, qs) && AllLaid(msg, dict)
    requires At(msg, pos, AllQuestionBytes(EncodeQuestions(dict, pos, qs).items))
    ensures
      var e := EncodeQuestions(dict, pos, qs);
      AllQuestionsOk(utf8, msg, e.items) && AllLaid(msg, e.dict)
    decreases |qs|
  {
    hide At;
    hide AllLaid;
    hide QuestionOk;
    hide QuestionBytes;
    hide EncodeQuestion;
    hide DictAfterQuestion;
    hide AllText;
    hide NameFits;
    if qs != [] {
      var w, next := EncodeQuestion(dict, pos, qs[0]), DictAfterQuestion(dict, pos, qs[0]);
      var rest := EncodeQuestions(next, pos + |QuestionBytes(w)|, qs[1..]);
      assert ([w] + rest.items)[1..] == rest.items;
      AtParts(msg, pos, QuestionBytes(w), AllQuestionBytes(rest.items));
      QuestionStands(utf8, msg, dict, pos, qs[0]);
      QuestionsStand(utf8, msg, next, pos + |QuestionBytes(w)|, qs[1..]);
    }
  }

  lemma AnswerStands(utf8: Label -> bool, msg: Message, dict: seq<Entry>, pos: nat, a: PlainAnswer)
    requires AnswerFits(a) && AnswerText(utf8, a) && AllLaid(msg, dict)
    requires At(msg, pos, AnswerBytes(EncodeAnswer(dict, pos, a)))
    ensures AnswerOk(utf8, msg, EncodeAnswer(dict, pos, a)) && AllLaid(msg, DictAfter(dict, pos, a))
  {
    hide At;
    hide AllLaid;
    hide Emit;
    hide Stands;
    hide AllText;
    hide Be;
    hide WrittenBytes;
    var w, mid, p := EncodeAnswer(dict, pos, a), DictForData(dict, pos, a), DataPos(dict, pos, a);
    AnswerParts(msg, pos, w);
    EmitSpells(msg, dict, a.labels, pos);
    EmitStands(msg, dict, a.labels, pos);
    LaidTogether(msg, dict, Emit(dict, a.labels, pos).added);
    LaidTogether(msg, mid, AddedByData(mid, p, a.data));
    if a.data.Canonical? {
      EmitSpells(msg, mid, a.data.labels, p);
      EmitStands(msg, mid, a.data.labels, p);
    } else {
      NothingLaid(msg);
    }
  }

  lemma NothingLaid(msg: Message)
    ensures AllLaid(msg, [])
  {
  }

  /** Where an answer's name and data stand. */
  lemma AnswerParts(msg: Message, pos: nat, w: WrittenAnswer)
    requires AnswerWritable(w) && At(msg, pos, AnswerBytes(w))
    ensures At(msg, pos, WrittenBytes(w.name.written))
    ensures At(msg, pos + |WrittenBytes(w.name.written)| + 10, DataBytes(w.data))
  {
    hide At;
    hide Be;
    hide WrittenBytes;
    var name, data := WrittenBytes(w.name.written), DataBytes(w.data);
    var p := pos + |name|;
    AtParts(msg, pos, name, Be(TypeOf(w.data), 2) + (Be(w.rclass, 2) + (Be(w.ttl, 4) + (Be(|data|, 2) + data))));
    AtParts(msg, p, Be(TypeOf(w.data), 2), Be(w.rclass, 2) + (Be(w.ttl, 4) + (Be(|data|, 2) + data)));
    AtParts(msg, p + 2, Be(w.rclass, 2), Be(w.ttl, 4) + (Be(|data|, 2) + data));
    AtParts(msg, p + 4, Be(w.ttl, 4), Be(|data|, 2) + data);
    AtParts(msg, p + 8, Be(|data|, 2), data);
  }

  lemma {:induction false} AnswersStand(utf8: Label -> bool, msg: Message, dict: seq<Entry>, pos: nat,
      rs: seq<PlainAnswer>)
    requires AnswersFit(rs) && AnswersText(utf8, rs) && AllLaid(msg, dict)
    requires At(msg, pos, AllAnswerBytes(EncodeAnswers(dict, pos, rs).items))
    ensures AllAnswersOk(utf8, msg, EncodeAnswers(dict, pos, rs).items)
    decreases |rs|
  {
    hide At;
    hide AllLaid;
    hide AnswerOk;
    hide AnswerBytes;
    hide EncodeAnswer;
    hide DictAfter;
    hide AnswerText;
    hide AnswerFits;
    if rs != [] {
      var w := EncodeAnswer(dict, pos, rs[0]);
      var rest := EncodeAnswers(DictAfter(dict, pos, rs[0]), pos + |AnswerBytes(w)|, rs[1..]);
      assert ([w] + rest.items)[1..] == rest.items;
      AtParts(msg, pos, AnswerBytes(w), AllAnswerBytes(rest.items));
      AnswerStands(utf8, msg, dict, pos, rs[0]);
      AnswersStand(utf8, msg, DictAfter(dict, pos, rs[0]), pos + |AnswerBytes(w)|, rs[1..]);
    }
  }

  /** What was meant, as the dissector reports it. */
  function QuestionMeant(q: PlainQuestion): Question { Question(Join(q.labels), q.qtype) }

  function AnswerMeant(a: PlainAnswer): Answer {
    var blank := Answer(Join(a.labels), None, None, a.ttl);
    match a.data
    case PlainV4(octets) => blank.(addr := Some(V4(octets)))
    case PlainV6(octets) => blank.(addr := Some(V6(octets)))
    case Canonical(labels) => blank.(cname := Some(Join(labels)))
    case PlainOther(_, _) => blank
  }

  lemma {:induction false} QuestionsExpected(dict: seq<Entry>, pos: nat, qs: seq<PlainQuestion>)
    requires QuestionsFit(qs)
    ensures
      ExpectedQuestions(EncodeQuestions(dict, pos, qs).items) ==
        seq(|qs|, i requires 0 <= i < |qs| => QuestionMeant(qs[i]))
    decreases |qs|
  {
    hide Emit;
    hide Join;
    hide QuestionBytes;
    if qs != [] {
      var w := EncodeQuestion(dict, pos, qs[0]);
      var next, at := DictAfterQuestion(dict, pos, qs[0]), pos + |QuestionBytes(w)|;
      QuestionsExpected(next, at, qs[1..]);
      var rest := EncodeQuestions(next, at, qs[1..]).items;
      assert ExpectedQuestions([w] + rest) == [QuestionMeant(qs[0])] + ExpectedQuestions(rest);
    }
  }

  lemma {:induction false} AnswersExpected(dict: seq<Entry>, pos: nat, rs: seq<PlainAnswer>)
    requires AnswersFit(rs)
    ensures ExpectedAnswers(EncodeAnswers(dict, pos, rs).items) ==
            seq(|rs|, i requires 0 <= i < |rs| => AnswerMeant(rs[i]))
    decreases |rs|
  {
    hide Join;
    hide AnswerBytes;
    hide DictAfter;
    hide NameAt;
    hide DictForData;
    hide DataPos;
    if rs != [] {
      var w := EncodeAnswer(dict, pos, rs[0]);
      var next, at := DictAfter(dict, pos, rs[0]), pos + |AnswerBytes(w)|;
      AnswersExpected(next, at, rs[1..]);
      var rest := EncodeAnswers(next, at, rs[1..]).items;
      assert ExpectedAnswer(w) == AnswerMeant(rs[0]);
      assert ExpectedAnswers([w] + rest) == [ExpectedAnswer(w)] + ExpectedAnswers(rest);
    }
  }

  lemma {:induction false} EncodedCounts(dict: seq<Entry>, pos: nat, qs: seq<PlainQuestion>)
    requires QuestionsFit(qs)
    ensures |EncodeQuestions(dict, pos, qs).items| == |qs|
    decreases |qs|
  {
    hide Emit;
    hide QuestionBytes;
    if qs != [] {
      var w := EncodeQuestion(dict, pos, qs[0]);
      EncodedCounts(DictAfterQuestion(dict, pos, qs[0]), pos + |QuestionBytes(w)|, qs[1..]);
    }
  }

  lemma {:induction false} EncodedAnswerCount(dict: seq<Entry>, pos: nat, rs: seq<PlainAnswer>)
    requires AnswersFit(rs)
    ensures |EncodeAnswers(dict, pos, rs).items| == |rs|
    decreases |rs|
  {
    hide AnswerBytes;
    hide DictAfter;
    hide EncodeAnswer;
    if rs != [] {
      var w := EncodeAnswer(dict, pos, rs[0]);
      EncodedAnswerCount(DictAfter(dict, pos, rs[0]), pos + |AnswerBytes(w)|, rs[1..]);
    }
  }

  /**
   * Encoding and dissecting: a standard-query message written with every name compressed against the names before it,
   * whatever follows it, is read as exactly the questions and answers meant.
   */
  lemma EncodedIsDissected(utf8: Label -> bool, id: u16, flags: u16, counts: seq<byte>,
                           qs: seq<PlainQuestion>, rs: seq<PlainAnswer>, tail: seq<byte>)
    requires |counts| == 4 && |qs| < 0x1_0000 && |rs| < 0x1_0000 && flags / 0x800 % 16 == 0
    requires QuestionsFit(qs) && AnswersFit(rs) && QuestionsText(utf8, qs) && AnswersText(utf8, rs)
    ensures Dissected(utf8, Encode(id, flags, counts, qs, rs) + tail) ==
            Some(Info(flags >= 0x8000, flags % 16,
                      seq(|qs|, i requires 0 <= i < |qs| => QuestionMeant(qs[i])),
                      seq(|rs|, i requires 0 <= i < |rs| => AnswerMeant(rs[i]))))
  {
    hide Dissected;
    hide MessageBytes;
    hide At;
    hide EncodeQuestions;
    hide EncodeAnswers;
    hide ExpectedQuestions;
    hide ExpectedAnswers;
    hide QuestionMeant;
    hide AnswerMeant;
    hide QuestionsFit;
    hide AnswersFit;
    hide QuestionsText;
    hide AnswersText;
    hide AllQuestionsOk;
    hide AllAnswersOk;
    hide AllQuestionBytes;
    hide AllAnswerBytes;
    var msg := Encode(id, flags, counts, qs, rs) + tail;
    var q := EncodeQuestions([], 12, qs);
    var a := EncodeAnswers(q.dict, q.pos, rs).items;
    EncodedCounts([], 12, qs);
    EncodedAnswerCount(q.dict, q.pos, rs);
    MessageHolds(msg, id, flags, counts, q.items, a);
    NothingLaid(msg);
    QuestionsStand(utf8, msg, [], 12, qs);
    AnswersStand(utf8, msg, q.dict, q.pos, rs);
    MessageRoundTrip(utf8, msg, id, flags, counts, q.items, a);
    QuestionsExpected([], 12, qs);
    AnswersExpected(q.dict, q.pos, rs);
  }

  /** The type number an answer is written with. */
  lemma TypeNumbers(d: Data)
    ensures TypeOf(d) ==
            (if d.DataV4? then 1 else if d.DataV6? then 28 else if d.DataName? then 5 else d.rtype)
  {
  }
}
