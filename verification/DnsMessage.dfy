/** DNS responses: the parser, and the message format of section 4.1 of RFC 1035 it has to meet. */
module DnsMessage {
  import opened Bytes
  import opened DnsName
  import opened Wrappers

  datatype Answer = Answer(name: bytes, rtype: nat, ttl: nat, data: bytes)

  /** `OutOfBounds` and `UnknownType` are the two places where the source traps. */
  datatype Outcome =
    | Parsed(answers: seq<Answer>)
    | TooShort
    | MalformedName
    | OutOfBounds
    | UnknownType

  datatype OneAnswer = Got(answer: Answer, next: nat) | Failed(why: Outcome)

  const HEADER: nat := 12

  datatype RecordType = A | AAAA | CNAME | MX | NS | TXT | SRV | CAA

  function Code(t: RecordType): nat {
    match t
    case A => 1
    case NS => 2
    case CNAME => 5
    case MX => 15
    case TXT => 16
    case AAAA => 28
    case SRV => 33
    case CAA => 257
  }

  predicate KnownType(t: nat) {
    t in {1, 2, 5, 15, 16, 28, 33, 257}
  }

  lemma KnownTypeIff(t: nat)
    ensures KnownType(t) <==> exists r: RecordType :: Code(r) == t
  {
    if KnownType(t) {
      var r :=
        if t == 1 then A else if t == 2 then NS else if t == 5 then CNAME else if t == 15 then MX
        else if t == 16 then TXT else if t == 28 then AAAA else if t == 33 then SRV else CAA;
      assert Code(r) == t;
    }
  }

  // What the parser computes.

  /** The zero byte of a question name; anything that is not a plain length counts as two bytes. */
  function SkipName(data: bytes, off: nat): Option<nat>
    decreases After(data, off)
  {
    if off >= |data| then None
    else if data[off] == 0 then Some(off)
    else if data[off] >= 0x40 then Some(off + 2)
    else SkipName(data, off + 1 + data[off] as nat)
  }

  function SkipQuestions(data: bytes, off: nat, n: nat): Option<nat>
    decreases n
  {
    if n == 0 then Some(off)
    else match SkipName(data, off)
         case None => None
         case Some(e) => SkipQuestions(data, e + 5, n - 1)
  }

  function AnswerAt(data: bytes, off: nat): (r: OneAnswer)
    ensures r.Failed? ==> !r.why.Parsed?
  {
    match ParsedName(data, off)
    case Malformed => Failed(MalformedName)
    case Ok((name, e)) =>
      if e + 10 > |data| then Failed(OutOfBounds)
      else
        var length := ReadU16(data, e + 8);
        if e + 10 + length > |data| then Failed(OutOfBounds)
        else if !KnownType(ReadU16(data, e)) then Failed(UnknownType)
        else Got(Answer(name, ReadU16(data, e), ReadU32(data, e + 4), data[e + 10..e + 10 + length]), e + 10 + length)
  }

  function PutInFront(front: seq<Answer>, r: Outcome): Outcome {
    if r.Parsed? then Parsed(front + r.answers) else r
  }

  function Answers(data: bytes, off: nat, n: nat): Outcome
    decreases n
  {
    if n == 0 then Parsed([])
    else match AnswerAt(data, off)
         case Failed(why) => why
         case Got(a, next) => PutInFront([a], Answers(data, next, n - 1))
  }

  function Response(data: bytes): Outcome {
    if |data| < HEADER then TooShort
    else match SkipQuestions(data, HEADER, ReadU16(data, 4))
         case None => OutOfBounds
         case Some(off) => Answers(data, off, ReadU16(data, 6))
  }

  // The parser.

  method SkipQuestion(data: bytes, start: nat) returns (r: Option<nat>)
    ensures r == match SkipName(data, start) case None => None case Some(e) => Some(e + 5)
  {
    var offset: nat := start;
    while true
      invariant SkipName(data, start) == SkipName(data, offset)
      decreases After(data, offset)
    {
      if offset >= |data| {
        return None;
      }
      if data[offset] == 0 {
        break;
      }
      if data[offset] >= 0x40 {
        return Some(offset + 2 + 5);
      }
      offset := offset + data[offset] as nat + 1;
    }
    return Some(offset + 5);
  }

  method ParseAnswer(data: bytes, start: nat) returns (r: OneAnswer)
    ensures r == AnswerAt(data, start)
  {
    var named, hops := ParseDomainName(data, start);
    if named.Malformed? {
      return Failed(MalformedName);
    }
    var (name, offset) := named.value;
    if offset + 2 > |data| {
      return Failed(OutOfBounds);
    }
    var answerType := ReadU16(data, offset);
    offset := offset + 2;
    if offset + 2 > |data| {
      return Failed(OutOfBounds);
    }
    offset := offset + 2;
    if offset + 4 > |data| {
      return Failed(OutOfBounds);
    }
    var ttl := ReadU32(data, offset);
    offset := offset + 4;
    if offset + 2 > |data| {
      return Failed(OutOfBounds);
    }
    var length := ReadU16(data, offset);
    offset := offset + 2;
    if offset + length > |data| {
      return Failed(OutOfBounds);
    }
    var answerData := data[offset..offset + length];
    offset := offset + length;
    if !KnownType(answerType) {
      return Failed(UnknownType);
    }
    return Got(Answer(name, answerType, ttl, answerData), offset);
  }

  lemma PutInFrontTwice(a: seq<Answer>, b: seq<Answer>, r: Outcome)
    ensures PutInFront(a, PutInFront(b, r)) == PutInFront(a + b, r)
  {
    if r.Parsed? {
      assert a + (b + r.answers) == (a + b) + r.answers;
    }
  }

  lemma NoneLeft(data: bytes, off: nat)
    ensures SkipQuestions(data, off, 0) == Some(off) && Answers(data, off, 0) == Parsed([])
  {
  }

  lemma SkipOne(data: bytes, off: nat, n: nat)
    requires n > 0
    ensures SkipQuestions(data, off, n) ==
            match SkipName(data, off) case None => None case Some(e) => SkipQuestions(data, e + 5, n - 1)
  {
  }

  lemma ReadOne(data: bytes, off: nat, n: nat)
    requires n > 0
    ensures Answers(data, off, n) ==
            match AnswerAt(data, off)
            case Failed(why) => why
            case Got(a, next) => PutInFront([a], Answers(data, next, n - 1))
  {
  }

  /** `parseDnsResponse`: header counts, questions skipped, answers collected. */
  method ParseDnsResponse(data: bytes) returns (r: Outcome)
    ensures r == Response(data)
  {
    hide SkipQuestions, SkipName, Answers, AnswerAt;
    if |data| < HEADER {
      return TooShort;
    }
    var questions, answers := ReadU16(data, 4), ReadU16(data, 6);
    var offset: nat := HEADER;
    for i := 0 to questions
      invariant SkipQuestions(data, HEADER, questions) == SkipQuestions(data, offset, questions - i)
    {
      SkipOne(data, offset, questions - i);
      var skipped := SkipQuestion(data, offset);
      if skipped.None? {
        return OutOfBounds;
      }
      offset := skipped.value;
    }
    assert SkipQuestions(data, HEADER, questions) == Some(offset) by {
      NoneLeft(data, offset);
    }
    var list: seq<Answer> := [];
    ghost var first := offset;
    assert PutInFront([], Answers(data, first, answers)) == Answers(data, first, answers);
    for i := 0 to answers
      invariant Answers(data, first, answers) == PutInFront(list, Answers(data, offset, answers - i))
    {
      ReadOne(data, offset, answers - i);
      var one := ParseAnswer(data, offset);
      if one.Failed? {
        return one.why;
      }
      PutInFrontTwice(list, [one.answer], Answers(data, one.next, answers - i - 1));
      list := list + [one.answer];
      offset := one.next;
    }
    NoneLeft(data, offset);
    assert list + [] == list;
    return Parsed(list);
  }

  // What a successful parse guarantees about any data, well-formed or not.

  /** The fixed fields and the data of the records. */
  function RecordBytes(answers: seq<Answer>): nat {
    if answers == [] then 0 else 10 + |answers[0].data| + RecordBytes(answers[1..])
  }

  /** The fields of an answer, byte by byte, behind a name that ends at e. */
  ghost predicate AnswerBytes(data: bytes, e: nat, a: Answer, next: nat) {
    && e + 10 <= next <= |data|
    && next - e - 10 == 256 * data[e + 8] as nat + data[e + 9] as nat
    && a.rtype == 256 * data[e] as nat + data[e + 1] as nat
    && (exists r: RecordType :: Code(r) == a.rtype)
    && a.ttl == 16777216 * data[e + 4] as nat + 65536 * data[e + 5] as nat + 256 * data[e + 6] as nat + data[e + 7] as nat
    && a.data == data[e + 10..next]
  }

  lemma AnswerIff(data: bytes, off: nat, a: Answer, next: nat)
    ensures AnswerAt(data, off) == Got(a, next) <==>
            exists e: nat :: ParsedName(data, off) == Ok((a.name, e)) && AnswerBytes(data, e, a, next)
    ensures AnswerAt(data, off).Failed? ==> AnswerAt(data, off).why in {MalformedName, OutOfBounds, UnknownType}
    ensures AnswerAt(data, off) == Failed(MalformedName) <==> ParsedName(data, off).Malformed?
    ensures AnswerAt(data, off) == Failed(OutOfBounds) <==>
            exists name, e: nat :: ParsedName(data, off) == Ok((name, e)) &&
                                   (e + 10 > |data| || e + 10 + ReadU16(data, e + 8) > |data|)
  {
    KnownTypeIff(a.rtype);
    match ParsedName(data, off)
    case Malformed =>
    case Ok((name, e)) =>
      BigEndian(data, e);
      BigEndian(data, e + 4);
      BigEndian(data, e + 8);
      assert AnswerAt(data, off) == Got(a, next) <==> a.name == name && AnswerBytes(data, e, a, next);
  }

  lemma AnswerAdvances(data: bytes, off: nat)
    requires AnswerAt(data, off).Got?
    ensures var a, next := AnswerAt(data, off).answer, AnswerAt(data, off).next;
            && off + 10 + |a.data| <= next <= |data|
            && KnownType(a.rtype) && a.ttl < 0x1_0000_0000
            && a.data == data[next - |a.data|..next]
  {
    if off < |data| {
      ParseMovesForward(data, off, MAX_JUMPS);
    }
  }

  /** Record i ends at ends[i], with its data as the last bytes before that. */
  ghost predicate Placed(data: bytes, off: nat, answers: seq<Answer>, ends: seq<nat>) {
    |ends| == |answers| &&
    forall i :: 0 <= i < |answers| ==>
                  && (if i == 0 then off else ends[i - 1]) + 10 + |answers[i].data| <= ends[i] <= |data|
                  && answers[i].data == data[ends[i] - |answers[i].data|..ends[i]]
  }

  /** As many answers as announced, of known types, from records that lie one behind the other. */
  lemma {:induction false} RecordsFit(data: bytes, off: nat, n: nat) returns (ends: seq<nat>)
    requires off <= |data| && Answers(data, off, n).Parsed?
    ensures var answers := Answers(data, off, n).answers;
            && |answers| == n && Placed(data, off, answers, ends)
            && off + RecordBytes(answers) <= |data|
            && forall i :: 0 <= i < n ==> KnownType(answers[i].rtype) && answers[i].ttl < 0x1_0000_0000
    decreases n
  {
    hide AnswerAt;
    ends := [];
    if n > 0 {
      AnswerAdvances(data, off);
      var a, next := AnswerAt(data, off).answer, AnswerAt(data, off).next;
      var restEnds := RecordsFit(data, next, n - 1);
      var rest := Answers(data, next, n - 1).answers;
      assert ([a] + rest)[1..] == rest;
      ends := [next] + restEnds;
      PlacedBehind(data, off, a, next, rest, restEnds);
    }
  }

  lemma PlacedBehind(data: bytes, off: nat, a: Answer, next: nat, rest: seq<Answer>, ends: seq<nat>)
    requires off + 10 + |a.data| <= next <= |data| && a.data == data[next - |a.data|..next]
    requires Placed(data, next, rest, ends)
    ensures Placed(data, off, [a] + rest, [next] + ends)
  {
    var all, allEnds := [a] + rest, [next] + ends;
    forall i | 0 <= i < |all|
      ensures (if i == 0 then off else allEnds[i - 1]) + 10 + |all[i].data| <= allEnds[i] <= |data|
      ensures all[i].data == data[allEnds[i] - |all[i].data|..allEnds[i]]
    {
      if i > 0 {
        var k := i - 1;
        assert all[i] == rest[k] && allEnds[i] == ends[k] && (k > 0 ==> allEnds[k] == ends[k - 1]);
        assert rest[k].data == data[ends[k] - |rest[k].data|..ends[k]];
      }
    }
  }

  /** Every response that parses, whatever its bytes. */
  lemma ParsedResponseFits(data: bytes) returns (start: nat, ends: seq<nat>)
    requires Response(data).Parsed?
    ensures var answers := Response(data).answers;
            && HEADER <= start && |answers| == ReadU16(data, 6) && Placed(data, start, answers, ends)
            && (answers != [] ==> start + RecordBytes(answers) <= |data|)
            && HEADER + RecordBytes(answers) <= |data|
  {
    var n := ReadU16(data, 6);
    start := SkipQuestions(data, HEADER, ReadU16(data, 4)).value;
    SkipsForward(data, HEADER, ReadU16(data, 4));
    if n == 0 {
      ends := [];
    } else {
      StartsInside(data, start);
      ends := RecordsFit(data, start, n);
    }
  }

  lemma StartsInside(data: bytes, off: nat)
    requires AnswerAt(data, off).Got?
    ensures off <= |data|
  {
    AnswerAdvances(data, off);
  }

  lemma {:induction false} SkipsForward(data: bytes, off: nat, n: nat)
    requires SkipQuestions(data, off, n).Some?
    ensures off <= SkipQuestions(data, off, n).value
    decreases n
  {
    if n > 0 {
      SkipNameForward(data, off);
      SkipsForward(data, SkipName(data, off).value + 5, n - 1);
    }
  }

  lemma {:induction false} SkipNameForward(data: bytes, off: nat)
    requires SkipName(data, off).Some?
    ensures off <= SkipName(data, off).value
    decreases After(data, off)
  {
    if 0 < data[off] < 0x40 {
      SkipNameForward(data, off + 1 + data[off] as nat);
    }
  }

  // Messages as RFC 1035 lays them out.

  /** Labels, then a zero byte or a pointer. */
  datatype WireName = WireName(own: seq<Label>, pointer: Option<nat>)

  datatype WireAnswer = WireAnswer(name: WireName, rtype: nat, rclass: nat, ttl: nat, data: bytes)

  datatype Question = Question(name: seq<Label>, qtype: nat, qclass: nat)

  datatype Message = Message(id: nat, flags: nat, questions: seq<Question>, answers: seq<WireAnswer>,
                             authority: nat, additional: nat, trailer: bytes)

  ghost predicate NameOk(n: WireName) {
    Proper(n.own) && (n.pointer.Some? ==> n.pointer.value < 0x4000)
  }

  ghost predicate AnswerOk(a: WireAnswer) {
    && NameOk(a.name) && KnownType(a.rtype) && a.rclass < 0x1_0000
    && a.ttl < 0x1_0000_0000 && |a.data| < 0x1_0000
  }

  ghost predicate QuestionOk(q: Question) {
    Proper(q.name) && q.qtype < 0x1_0000 && q.qclass < 0x1_0000
  }

  ghost predicate MessageOk(m: Message) {
    && m.id < 0x1_0000 && m.flags < 0x1_0000 && m.authority < 0x1_0000 && m.additional < 0x1_0000
    && |m.questions| < 0x1_0000 && |m.answers| < 0x1_0000
    && (forall i :: 0 <= i < |m.questions| ==> QuestionOk(m.questions[i]))
    && (forall i :: 0 <= i < |m.answers| ==> AnswerOk(m.answers[i]))
  }

  function PointerBytes(p: nat): (w: bytes)
    requires p < 0x4000
    ensures |w| == 2 && IsPointer(w[0]) && Target(w[0], w[1]) == p
  {
    [(0xC0 + p / 0x100) as byte, (p % 0x100) as byte]
  }

  ghost function EncodeWireName(n: WireName): bytes
    requires NameOk(n)
  {
    EncodeLabels(n.own) + match n.pointer case None => [0] case Some(p) => PointerBytes(p)
  }

  ghost function EncodeFields(a: WireAnswer): bytes
    requires AnswerOk(a)
  {
    U16(a.rtype) + (U16(a.rclass) + (U32(a.ttl) + (U16(|a.data|) + a.data)))
  }

  ghost function EncodeAnswer(a: WireAnswer): bytes
    requires AnswerOk(a)
  {
    EncodeWireName(a.name) + EncodeFields(a)
  }

  ghost function EncodeAnswers(answers: seq<WireAnswer>): bytes
    requires forall i :: 0 <= i < |answers| ==> AnswerOk(answers[i])
  {
    if answers == [] then [] else EncodeAnswer(answers[0]) + EncodeAnswers(answers[1..])
  }

  ghost function EncodeQuestion(q: Question): bytes
    requires QuestionOk(q)
  {
    (EncodeLabels(q.name) + [0]) + (U16(q.qtype) + U16(q.qclass))
  }

  ghost function EncodeQuestions(questions: seq<Question>): bytes
    requires forall i :: 0 <= i < |questions| ==> QuestionOk(questions[i])
  {
    if questions == [] then [] else EncodeQuestion(questions[0]) + EncodeQuestions(questions[1..])
  }

  ghost function EncodeHeader(m: Message): (w: bytes)
    requires MessageOk(m)
    ensures |w| == HEADER
  {
    U16(m.id) + U16(m.flags) + U16(|m.questions|) + U16(|m.answers|) + U16(m.authority) + U16(m.additional)
  }

  ghost function Encode(m: Message): bytes
    requires MessageOk(m)
  {
    EncodeHeader(m) + (EncodeQuestions(m.questions) + (EncodeAnswers(m.answers) + m.trailer))
  }

  /** Each answer's name, compressed or not, denotes the given labels in the message. */
  ghost predicate Resolve(data: bytes, off: nat, answers: seq<WireAnswer>, names: seq<seq<Label>>)
    requires forall i :: 0 <= i < |answers| ==> AnswerOk(answers[i])
    decreases |answers|
  {
    if answers == [] then names == []
    else
      && names != [] && Denotes(data, off, names[0], 16)
      && Resolve(data, off + |EncodeAnswer(answers[0])|, answers[1..], names[1..])
  }

  function Expected(answers: seq<WireAnswer>, names: seq<seq<Label>>): seq<Answer>
    requires |answers| == |names|
  {
    seq(|answers|, i requires 0 <= i < |answers| =>
      Answer(Join(names[i]), answers[i].rtype, answers[i].ttl, answers[i].data))
  }

  lemma {:induction false} ResolveLength(data: bytes, off: nat, answers: seq<WireAnswer>, names: seq<seq<Label>>)
    requires forall i :: 0 <= i < |answers| ==> AnswerOk(answers[i])
    requires Resolve(data, off, answers, names)
    ensures |answers| == |names|
    decreases |answers|
  {
    hide Denotes, EncodeAnswer, AnswerOk;
    if answers != [] {
      ResolveLength(data, off + |EncodeAnswer(answers[0])|, answers[1..], names[1..]);
    }
  }

  // The parser reads such messages back.

  lemma NameEnds(data: bytes, off: nat, n: WireName)
    requires NameOk(n) && Has(data, off, EncodeWireName(n))
    ensures EndOffset(data, off) == off + |EncodeWireName(n)|
  {
    var next := off + |EncodeLabels(n.own)|;
    var last := match n.pointer case None => [0] case Some(p) => PointerBytes(p);
    HasParts(data, off, EncodeLabels(n.own), last);
    assert data[next] == data[next..next + |last|][0];
    EndThen(data, off, n.own, next);
  }

  lemma FieldsRead(data: bytes, off: nat, a: WireAnswer)
    requires AnswerOk(a) && Has(data, off, EncodeFields(a))
    ensures off + 10 + |a.data| == off + |EncodeFields(a)| <= |data|
    ensures ReadU16(data, off) == a.rtype && ReadU32(data, off + 4) == a.ttl
    ensures ReadU16(data, off + 8) == |a.data| && data[off + 10..off + 10 + |a.data|] == a.data
  {
    var f4 := U16(|a.data|) + a.data;
    var f3 := U32(a.ttl) + f4;
    var f2 := U16(a.rclass) + f3;
    HasParts(data, off, U16(a.rtype), f2);
    HasParts(data, off + 2, U16(a.rclass), f3);
    HasParts(data, off + 4, U32(a.ttl), f4);
    HasParts(data, off + 8, U16(|a.data|), a.data);
    U16RoundTrip(data, off, a.rtype);
    U32RoundTrip(data, off + 4, a.ttl);
    U16RoundTrip(data, off + 8, |a.data|);
  }

  lemma AnswerParses(data: bytes, off: nat, a: WireAnswer, name: seq<Label>)
    requires AnswerOk(a) && Has(data, off, EncodeAnswer(a)) && Denotes(data, off, name, MAX_JUMPS)
    ensures AnswerAt(data, off) == Got(Answer(Join(name), a.rtype, a.ttl, a.data), off + |EncodeAnswer(a)|)
  {
    hide Denotes, Labels, EndOffset, EncodeWireName, EncodeFields;
    HasParts(data, off, EncodeWireName(a.name), EncodeFields(a));
    NameEnds(data, off, a.name);
    ParserMeetsRfc1035(data, off, name);
    FieldsRead(data, off + |EncodeWireName(a.name)|, a);
  }

  lemma {:induction false} AnswersParse(data: bytes, off: nat, answers: seq<WireAnswer>, names: seq<seq<Label>>)
    requires forall i :: 0 <= i < |answers| ==> AnswerOk(answers[i])
    requires Has(data, off, EncodeAnswers(answers)) && Resolve(data, off, answers, names)
    ensures |answers| == |names| && Answers(data, off, |answers|) == Parsed(Expected(answers, names))
    decreases |answers|
  {
    hide Denotes, AnswerAt, EncodeAnswer;
    ResolveLength(data, off, answers, names);
    if answers != [] {
      var a, rest := answers[0], answers[1..];
      HasParts(data, off, EncodeAnswer(a), EncodeAnswers(rest));
      AnswerParses(data, off, a, names[0]);
      AnswersParse(data, off + |EncodeAnswer(a)|, rest, names[1..]);
      assert Expected(answers, names) ==
             [Answer(Join(names[0]), a.rtype, a.ttl, a.data)] + Expected(rest, names[1..]);
    }
  }

  lemma SkipsLabel(data: bytes, off: nat, l: Label)
    requires 1 <= |l| <= 63 && Has(data, off, EncodeLabel(l))
    ensures SkipName(data, off) == SkipName(data, off + 1 + |l|)
  {
    LengthHere(data, off, l);
  }

  /** A spelt-out question name is skipped up to its zero byte. */
  lemma {:induction false} SkipsLabels(data: bytes, off: nat, own: seq<Label>, next: nat)
    requires Proper(own) && Has(data, off, EncodeLabels(own)) && next == off + |EncodeLabels(own)|
    ensures SkipName(data, off) == SkipName(data, next)
    decreases |own|
  {
    hide SkipName;
    if own != [] {
      var l, rest := own[0], own[1..];
      HasParts(data, off, EncodeLabel(l), EncodeLabels(rest));
      SkipsLabel(data, off, l);
      SkipsLabels(data, off + 1 + |l|, rest, next);
    }
  }

  lemma SkipsSpeltOut(data: bytes, off: nat, own: seq<Label>)
    requires SpeltOut(data, off, own)
    ensures SkipName(data, off) == Some(off + |EncodeLabels(own)|)
  {
    var next := off + |EncodeLabels(own)|;
    HasParts(data, off, EncodeLabels(own), [0]);
    SkipsLabels(data, off, own, next);
    assert data[next] == data[next..next + 1][0];
  }

  lemma QuestionSkipped(data: bytes, off: nat, q: Question)
    requires QuestionOk(q) && Has(data, off, EncodeQuestion(q))
    ensures SkipName(data, off) == Some(off + |EncodeQuestion(q)| - 5)
  {
    HasParts(data, off, EncodeLabels(q.name) + [0], U16(q.qtype) + U16(q.qclass));
    SkipsSpeltOut(data, off, q.name);
  }

  lemma {:induction false} QuestionsSkipped(data: bytes, off: nat, questions: seq<Question>)
    requires forall i :: 0 <= i < |questions| ==> QuestionOk(questions[i])
    requires Has(data, off, EncodeQuestions(questions))
    ensures SkipQuestions(data, off, |questions|) == Some(off + |EncodeQuestions(questions)|)
    decreases |questions|
  {
    hide SkipName, SpeltOut, EncodeQuestion;
    if questions != [] {
      var q, rest := questions[0], questions[1..];
      HasParts(data, off, EncodeQuestion(q), EncodeQuestions(rest));
      QuestionSkipped(data, off, q);
      QuestionsSkipped(data, off + |EncodeQuestion(q)|, rest);
    }
  }

  lemma HeaderRead(data: bytes, m: Message)
    requires MessageOk(m) && Has(data, 0, EncodeHeader(m))
    ensures ReadU16(data, 4) == |m.questions| && ReadU16(data, 6) == |m.answers|
  {
    var h := EncodeHeader(m);
    assert data[0..HEADER] == h;
    assert forall i :: 0 <= i < HEADER ==> data[i] == h[i];
    assert h[4..6] == U16(|m.questions|) && h[6..8] == U16(|m.answers|);
    assert data[4..6] == h[4..6] && data[6..8] == h[6..8];
    U16RoundTrip(data, 4, |m.questions|);
    U16RoundTrip(data, 6, |m.answers|);
  }

  lemma PartsOf(m: Message)
    requires MessageOk(m)
    ensures var data := Encode(m);
            && Has(data, 0, EncodeHeader(m)) && Has(data, HEADER, EncodeQuestions(m.questions))
            && Has(data, HEADER + |EncodeQuestions(m.questions)|, EncodeAnswers(m.answers))
  {
    var data, q, a := Encode(m), EncodeQuestions(m.questions), EncodeAnswers(m.answers);
    assert data[0..|data|] == data;
    HasParts(data, 0, EncodeHeader(m), q + (a + m.trailer));
    HasParts(data, HEADER, q, a + m.trailer);
    HasParts(data, HEADER + |q|, a, m.trailer);
  }

  /**
   * Every well-formed message: the parser returns exactly its answers, in order, with the names
   * their wire forms denote, however those are compressed.
   */
  lemma ResponseReadsMessage(m: Message, names: seq<seq<Label>>)
    requires MessageOk(m)
    requires Resolve(Encode(m), HEADER + |EncodeQuestions(m.questions)|, m.answers, names)
    ensures |m.answers| == |names| && Response(Encode(m)) == Parsed(Expected(m.answers, names))
  {
    hide Encode, EncodeHeader, EncodeQuestions, EncodeAnswers, Resolve, SkipQuestions, Answers, Has;
    PartsOf(m);
    HasLength(Encode(m), 0, EncodeHeader(m));
    HeaderRead(Encode(m), m);
    QuestionsSkipped(Encode(m), HEADER, m.questions);
    AnswersParse(Encode(m), HEADER + |EncodeQuestions(m.questions)|, m.answers, names);
  }

  // Compression as servers use it: names spelt out, or ending in a pointer to the first question.

  ghost predicate QuestionCompressed(m: Message) {
    forall i :: 0 <= i < |m.answers| ==>
                  m.answers[i].name.pointer.None? || (m.questions != [] && m.answers[i].name.pointer == Some(HEADER))
  }

  function FullName(m: Message, n: WireName): seq<Label>
    requires n.pointer.Some? ==> m.questions != []
  {
    if n.pointer.None? then n.own else n.own + m.questions[0].name
  }

  lemma FirstQuestionDenotes(m: Message)
    requires MessageOk(m) && m.questions != []
    ensures SpeltOut(Encode(m), HEADER, m.questions[0].name)
    ensures |EncodeQuestions(m.questions)| > 0
  {
    var data, q := Encode(m), m.questions[0];
    PartsOf(m);
    HasParts(data, HEADER, EncodeQuestion(q), EncodeQuestions(m.questions[1..]));
    HasParts(data, HEADER, EncodeLabels(q.name) + [0], U16(q.qtype) + U16(q.qclass));
  }

  /** Labels and a pointer to a place that spells out the rest of the name. */
  lemma PointerDenotes(data: bytes, off: nat, own: seq<Label>, p: nat, rest: seq<Label>)
    requires Proper(own) && p < 0x4000 && p < off
    requires Has(data, off, EncodeLabels(own) + PointerBytes(p)) && SpeltOut(data, p, rest)
    ensures Denotes(data, off, own + rest, MAX_JUMPS)
  {
    hide Has, SpeltOut, EncodeLabels;
    var full, w := own + rest, PointerBytes(p);
    assert full[..|own|] == own && full[|own|..] == rest;
    assert w == [w[0], w[1]];
    assert PointsOn(data, off, full, |own|, w[0], w[1]);
    assert Denotes(data, p, full[|own|..], MAX_JUMPS - 1);
  }

  lemma WireNameDenotes(m: Message, off: nat, n: WireName)
    requires MessageOk(m) && NameOk(n)
    requires n.pointer.None? || (m.questions != [] && n.pointer == Some(HEADER) && HEADER < off)
    requires Has(Encode(m), off, EncodeWireName(n))
    ensures Denotes(Encode(m), off, FullName(m, n), MAX_JUMPS)
  {
    hide Encode, Has, MessageOk;
    if n.pointer.Some? {
      FirstQuestionDenotes(m);
      PointerDenotes(Encode(m), off, n.own, HEADER, m.questions[0].name);
    }
  }

  function FullNames(m: Message, answers: seq<WireAnswer>): seq<seq<Label>>
    requires forall i :: 0 <= i < |answers| ==> answers[i].name.pointer.Some? ==> m.questions != []
  {
    if answers == [] then [] else [FullName(m, answers[0].name)] + FullNames(m, answers[1..])
  }

  lemma {:induction false} AllResolve(m: Message, off: nat, answers: seq<WireAnswer>)
    requires MessageOk(m) && (m.questions != [] ==> HEADER < off)
    requires forall i :: 0 <= i < |answers| ==> AnswerOk(answers[i])
    requires forall i :: 0 <= i < |answers| ==>
                           answers[i].name.pointer.None? || (m.questions != [] && answers[i].name.pointer == Some(HEADER))
    requires Has(Encode(m), off, EncodeAnswers(answers))
    ensures Resolve(Encode(m), off, answers, FullNames(m, answers))
    decreases |answers|
  {
    hide Encode, Denotes, EncodeWireName, EncodeFields, NameOk, FullName, Has;
    if answers != [] {
      var a, rest := answers[0], answers[1..];
      HasParts(Encode(m), off, EncodeAnswer(a), EncodeAnswers(rest));
      HasParts(Encode(m), off, EncodeWireName(a.name), EncodeFields(a));
      WireNameDenotes(m, off, a.name);
      AllResolve(m, off + |EncodeAnswer(a)|, rest);
      assert FullNames(m, answers)[1..] == FullNames(m, rest);
    }
  }

  /** Encode and parse back, with the usual compression, whatever the number of questions. */
  lemma UsualMessageRoundTrip(m: Message)
    requires MessageOk(m) && QuestionCompressed(m)
    ensures |FullNames(m, m.answers)| == |m.answers|
    ensures Response(Encode(m)) == Parsed(Expected(m.answers, FullNames(m, m.answers)))
  {
    hide Encode, EncodeAnswers, EncodeQuestions, Denotes, Response, Has, SpeltOut;
    hide FullNames, Resolve, Expected, QuestionOk, AnswerOk;
    PartsOf(m);
    if m.questions != [] {
      FirstQuestionDenotes(m);
    }
    AllResolve(m, HEADER + |EncodeQuestions(m.questions)|, m.answers);
    ResponseReadsMessage(m, FullNames(m, m.answers));
  }

  /**
   * A question is skipped to its end exactly when its name is spelt out: after a pointer the
   * loop has already moved past the name, and the five bytes added next are one too many.
   */
  lemma SkipRightIffSpeltOut(data: bytes, off: nat, name: seq<Label>)
    requires Denotes(data, off, name, MAX_JUMPS)
    ensures SkipName(data, off).Some?
    ensures SkipName(data, off).value + 5 == EndOffset(data, off) + 4 <==> SpeltOut(data, off, name)
  {
    if SpeltOut(data, off, name) {
      SkipsSpeltOut(data, off, name);
      LabelsThenZero(data, off, name, MAX_JUMPS);
    } else {
      var n: nat, hi: byte, lo: byte :| n <= |name| && PointsOn(data, off, name, n, hi, lo)
                                        && Denotes(data, Target(hi, lo), name[n..], MAX_JUMPS - 1);
      SkipsCompressed(data, off, name[..n], hi, lo);
    }
  }

  lemma SkipsCompressed(data: bytes, off: nat, own: seq<Label>, hi: byte, lo: byte)
    requires Proper(own) && IsPointer(hi) && Has(data, off, EncodeLabels(own) + [hi, lo])
    ensures SkipName(data, off) == Some(EndOffset(data, off))
  {
    PointerEnds(data, off, own, hi, lo);
    HasParts(data, off, EncodeLabels(own), [hi, lo]);
    SkipsLabels(data, off, own, off + |EncodeLabels(own)|);
  }

  /** Whole labels, and then a zero byte, or a byte from 64 on that is taken for two. */
  ghost predicate Skipped(data: bytes, off: nat, own: seq<Label>, e: nat) {
    && Proper(own) && Has(data, off, EncodeLabels(own))
    && var next := off + |EncodeLabels(own)|;
       next < |data| && ((data[next] == 0 && e == next) || (data[next] >= 64 && e == next + 2))
  }

  /** What the skip does on any data at all. */
  lemma SkipNameIff(data: bytes, off: nat, e: nat)
    ensures SkipName(data, off) == Some(e) <==> exists own :: Skipped(data, off, own, e)
  {
    hide Has;
    if own :| Skipped(data, off, own, e) {
      SkipsLabels(data, off, own, off + |EncodeLabels(own)|);
    }
    if SkipName(data, off) == Some(e) {
      var own := LabelsSkipped(data, off, e);
    }
  }

  lemma {:induction false} LabelsSkipped(data: bytes, off: nat, e: nat) returns (own: seq<Label>)
    requires SkipName(data, off) == Some(e)
    ensures Skipped(data, off, own, e)
    decreases After(data, off)
  {
    if data[off] == 0 || data[off] >= 0x40 {
      own := [];
      assert Has(data, off, []);
    } else {
      var n := data[off] as nat;
      var rest := LabelsSkipped(data, off + 1 + n, e);
      own := OneMoreLabel(data, off, n, rest, e);
    }
  }

  lemma OneMoreLabel(data: bytes, off: nat, n: nat, rest: seq<Label>, e: nat) returns (own: seq<Label>)
    requires off < |data| && 1 <= n < 64 && data[off] as nat == n && Skipped(data, off + 1 + n, rest, e)
    ensures Skipped(data, off, own, e)
  {
    HasLength(data, off + 1 + n, EncodeLabels(rest));
    var l := data[off + 1..off + 1 + n];
    assert data[off..off + 1 + n] == [data[off]] + l;
    assert Has(data, off, EncodeLabel(l));
    own := [l] + rest;
    assert own[1..] == rest;
    assert EncodeLabels(own) == EncodeLabel(l) + EncodeLabels(rest);
    hide EncodeLabels;
    HasParts(data, off, EncodeLabel(l), EncodeLabels(rest));
    hide Has;
  }

  lemma {:induction false} SkipMore(data: bytes, off: nat, a: nat, b: nat)
    requires SkipQuestions(data, off, a).Some?
    ensures SkipQuestions(data, off, a + b) == SkipQuestions(data, SkipQuestions(data, off, a).value, b)
    decreases a
  {
    if a > 0 {
      SkipMore(data, SkipName(data, off).value + 5, a - 1, b);
    }
  }

  /**
   * What that does to a message: spelt-out questions, then one whose name ends in a pointer, and
   * the answers are read from one byte behind the place where they start.
   */
  lemma AnswersReadOneByteLate(data: bytes, questions: seq<Question>, own: seq<Label>, hi: byte, lo: byte)
    requires forall i :: 0 <= i < |questions| ==> QuestionOk(questions[i])
    requires Proper(own) && IsPointer(hi)
    requires Has(data, HEADER, EncodeQuestions(questions))
    requires Has(data, HEADER + |EncodeQuestions(questions)|, EncodeLabels(own) + [hi, lo])
    requires |data| >= HEADER && ReadU16(data, 4) == |questions| + 1
    ensures var answersStart := HEADER + |EncodeQuestions(questions)| + |EncodeLabels(own)| + 2 + 4;
            Response(data) == Answers(data, answersStart + 1, ReadU16(data, 6))
  {
    hide SkipName, EncodeQuestions, EncodeLabels, Answers, Has;
    var off := HEADER + |EncodeQuestions(questions)|;
    QuestionsSkipped(data, HEADER, questions);
    SkipsCompressed(data, off, own, hi, lo);
    PointerEnds(data, off, own, hi, lo);
    SkipMore(data, HEADER, |questions|, 1);
    SkipOne(data, off, 1);
  }

  // One such message: two questions about `a`, the second one compressed, and one answer for the root.

  const SAMPLE_HEADER: bytes := [0, 0, 0, 0, 0, 2, 0, 1, 0, 0, 0, 0]
  const SAMPLE_NAME: bytes := [1, 97, 0]
  const SAMPLE_POINTER: bytes := [0xC0, 12]
  const SAMPLE_CLASS: bytes := [0, 1, 0, 1]
  const SAMPLE_ANSWER: bytes := [0, 0, 1, 0, 1, 0, 0, 0, 0, 0, 0]
  const SAMPLE: bytes :=
    SAMPLE_HEADER + ((SAMPLE_NAME + SAMPLE_CLASS) + ((SAMPLE_POINTER + SAMPLE_CLASS) + SAMPLE_ANSWER))

  /** Where the parts of the sample stand. */
  lemma SampleLayout()
    ensures |SAMPLE| == 36 && ReadU16(SAMPLE, 4) == 2 && ReadU16(SAMPLE, 6) == 1
    ensures Has(SAMPLE, 12, SAMPLE_NAME + SAMPLE_CLASS) && Has(SAMPLE, 12, SAMPLE_NAME)
    ensures Has(SAMPLE, 19, SAMPLE_POINTER) && Has(SAMPLE, 25, SAMPLE_ANSWER)
  {
    var second := (SAMPLE_POINTER + SAMPLE_CLASS) + SAMPLE_ANSWER;
    assert SAMPLE[0..|SAMPLE|] == SAMPLE;
    HasParts(SAMPLE, 0, SAMPLE_HEADER, (SAMPLE_NAME + SAMPLE_CLASS) + second);
    HasParts(SAMPLE, 12, SAMPLE_NAME + SAMPLE_CLASS, second);
    HasParts(SAMPLE, 12, SAMPLE_NAME, SAMPLE_CLASS);
    HasParts(SAMPLE, 19, SAMPLE_POINTER + SAMPLE_CLASS, SAMPLE_ANSWER);
    HasParts(SAMPLE, 19, SAMPLE_POINTER, SAMPLE_CLASS);
  }

  /** Its questions as RFC 1035 writes them. */
  lemma SampleEncoding(q: Question, none: seq<Label>)
    requires q == Question([[97]], 1, 1) && none == []
    ensures QuestionOk(q) && EncodeQuestions([q]) == SAMPLE_NAME + SAMPLE_CLASS
    ensures EncodeLabels(q.name) + [0] == SAMPLE_NAME && EncodeLabels(none) + SAMPLE_POINTER == SAMPLE_POINTER
  {
    assert q.name[1..] == [] && [q][1..] == [];
    assert EncodeLabels(q.name) == [1, 97];
    assert EncodeQuestion(q) == SAMPLE_NAME + SAMPLE_CLASS;
  }

  lemma SamplePointer()
    ensures PointerBytes(12) == SAMPLE_POINTER
  {
  }

  /** Bytes that stand in the data, one by one. */
  lemma ByteOf(data: bytes, off: nat, w: bytes, i: nat)
    requires Has(data, off, w) && i < |w|
    ensures data[off + i] == w[i]
  {
    assert data[off + i] == data[off..off + |w|][i];
  }

  /** A pointer by itself stands for the name it points to, and spells nothing out. */
  lemma BarePointerDenotes(data: bytes, off: nat, p: nat, pointer: bytes, name: seq<Label>)
    requires p < 0x4000 && p < off && pointer == PointerBytes(p) && Has(data, off, pointer) && SpeltOut(data, p, name)
    ensures Denotes(data, off, name, MAX_JUMPS) && !SpeltOut(data, off, name)
  {
    hide Denotes, Has;
    var none: seq<Label> := name[..0];
    assert none + name == name;
    assert EncodeLabels(none) + pointer == pointer && pointer == [pointer[0], pointer[1]];
    PointerDenotes(data, off, none, p, name);
    SkipsCompressed(data, off, none, pointer[0], pointer[1]);
    PointerEnds(data, off, none, pointer[0], pointer[1]);
    if SpeltOut(data, off, name) {
      SkipsSpeltOut(data, off, name);
      LabelsThenZero(data, off, name, MAX_JUMPS);
      assert false;
    }
  }

  lemma SampleSecondName(data: bytes, q: Question)
    requires data == SAMPLE && q == Question([[97]], 1, 1)
    ensures Denotes(data, 19, q.name, MAX_JUMPS) && !SpeltOut(data, 19, q.name)
  {
    hide Denotes, Has, EncodeLabels, PointerBytes;
    SampleLayout();
    SampleEncoding(q, []);
    SamplePointer();
    BarePointerDenotes(data, 19, 12, SAMPLE_POINTER, q.name);
  }

  /** A zero byte is the empty name. */
  lemma RootAt(data: bytes, off: nat)
    requires off < |data| && data[off] == 0
    ensures ParsedName(data, off) == Ok(([], off + 1))
  {
    LengthByteCases(data, off, MAX_JUMPS);
  }

  /** The answer is complete at byte 25; from byte 26 one byte is missing. */
  lemma SampleAnswer()
    ensures AnswerAt(SAMPLE, 25) == Got(Answer([], 1, 0, []), 36)
    ensures AnswerAt(SAMPLE, 26) == Failed(OutOfBounds)
  {
    hide ParsedName;
    SampleLayout();
    forall i: nat | i < 11
      ensures SAMPLE[25 + i] == SAMPLE_ANSWER[i]
    {
      ByteOf(SAMPLE, 25, SAMPLE_ANSWER, i);
    }
    assert SAMPLE[25 + 0] == 0 && SAMPLE[25 + 1] == 0 && SAMPLE[25 + 2] == 1;
    assert SAMPLE[25 + 5] == SAMPLE[25 + 6] == SAMPLE[25 + 7] == SAMPLE[25 + 8] == 0;
    assert SAMPLE[25 + 9] == SAMPLE[25 + 10] == 0;
    assert SAMPLE[36..36] == [];
    RootAt(SAMPLE, 25);
    RootAt(SAMPLE, 26);
  }

  lemma SampleReadLate(data: bytes, q: Question, none: seq<Label>)
    requires data == SAMPLE && q == Question([[97]], 1, 1) && none == []
    ensures Response(data) == OutOfBounds
  {
    hide Response, Has, EncodeQuestions, EncodeLabels, Answers, AnswerAt;
    SampleLayout();
    SampleEncoding(q, none);
    SampleAnswer();
    AnswersReadOneByteLate(data, [q], none, 0xC0, 12);
    ReadOne(data, 26, 1);
  }

  /** The answer is there, at byte 25, but the parser starts at 26 and runs off the data. */
  lemma CompressedQuestionLosesAnswer() returns (data: bytes, name: seq<Label>)
    ensures data == SAMPLE && name == [[97]]
    ensures Denotes(data, 19, name, MAX_JUMPS) && !SpeltOut(data, 19, name)
    ensures AnswerAt(data, 25) == Got(Answer([], 1, 0, []), 36)
    ensures Response(data) == OutOfBounds
  {
    hide Denotes, SpeltOut, AnswerAt, Response;
    data, name := SAMPLE, [[97]];
    SampleSecondName(data, Question(name, 1, 1));
    SampleAnswer();
    SampleReadLate(data, Question(name, 1, 1), []);
  }
}
