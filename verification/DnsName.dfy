/** Domain names on the wire: parsing with compression pointers, and encoding. */
module DnsName {
  import opened Bytes
  import opened Wrappers

  type Label = bytes

  const DOT: byte := 46
  const MAX_JUMPS: nat := 16

  datatype Result<+T> = Ok(value: T) | Malformed

  /** What a walk over labels and pointers finds, and whether a zero byte ended it. */
  datatype Walk = Name(labels: seq<Label>, ended: bool) | Broken

  // The two high bits of a length byte: 11 is a pointer, 00 a length, the rest is reserved.

  predicate IsPointer(b: byte) {
    b >= 0xC0
  }

  predicate IsReserved(b: byte) {
    0x40 <= b < 0xC0
  }

  /** The low fourteen bits. */
  function Target(hi: byte, lo: byte): nat
    requires IsPointer(hi)
  {
    (hi - 0xC0) as nat * 0x100 + lo as nat
  }

  function Join(labels: seq<Label>): bytes {
    if labels == [] then []
    else if |labels| == 1 then labels[0]
    else labels[0] + [DOT] + Join(labels[1..])
  }

  /** A label as it goes on the wire, up to the 255 bytes its length byte can say. */
  function EncodeLabel(l: Label): bytes
    requires |l| < 0x100
  {
    [|l| as byte] + l
  }

  ghost predicate Encodable(labels: seq<Label>) {
    forall i :: 0 <= i < |labels| ==> |labels[i]| < 0x100
  }

  /** What section 3.1 of RFC 1035 asks of each label in front of the terminating zero. */
  ghost predicate Proper(labels: seq<Label>) {
    forall i :: 0 <= i < |labels| ==> 1 <= |labels[i]| <= 63
  }

  ghost function EncodeLabels(labels: seq<Label>): bytes
    requires Encodable(labels)
  {
    if labels == [] then [] else EncodeLabel(labels[0]) + EncodeLabels(labels[1..])
  }

  /** What it asks of the whole name: at most 255 bytes with the length bytes and the zero. */
  ghost predicate WithinLimit(labels: seq<Label>)
    requires Encodable(labels)
  {
    |EncodeLabels(labels)| + 1 <= 255
  }

  /**
   * Section 4.1.4 of RFC 1035, without the limit on the whole name: a name is a sequence of labels
   * ending in a zero byte, or ending in a pointer to a prior occurrence of the rest of the name. At
   * most `hops` pointers.
   */
  ghost predicate Denotes(data: bytes, off: nat, labels: seq<Label>, hops: nat)
    decreases hops
  {
    || SpeltOut(data, off, labels)
    || (hops > 0 && exists n: nat, hi: byte, lo: byte ::
          n <= |labels| && PointsOn(data, off, labels, n, hi, lo) && Denotes(data, Target(hi, lo), labels[n..], hops - 1))
  }

  /** The labels stand at `off`, then a zero byte. */
  ghost predicate SpeltOut(data: bytes, off: nat, labels: seq<Label>) {
    Proper(labels) && Has(data, off, EncodeLabels(labels) + [0])
  }

  /** The first n labels stand at `off`, then a pointer to somewhere before itself. */
  ghost predicate PointsOn(data: bytes, off: nat, labels: seq<Label>, n: nat, hi: byte, lo: byte) {
    && n <= |labels| && Proper(labels[..n]) && IsPointer(hi)
    && Has(data, off, EncodeLabels(labels[..n]) + [hi, lo])
    && Target(hi, lo) < off + |EncodeLabels(labels[..n])|
  }

  // What the parser computes, without its loop state.

  function Prepend(labels: seq<Label>, w: Walk): Walk {
    match w
    case Name(ls, ended) => Name(labels + ls, ended)
    case Broken => Broken
  }

  function After(data: bytes, off: nat): nat {
    if off < |data| then |data| - off else 0
  }

  /** The labels found from `off` on. Running off the end of the data is not an error. */
  function Labels(data: bytes, off: nat, jumps: nat): Walk
    decreases jumps, After(data, off)
  {
    if off >= |data| then Name([], false)
    else if data[off] == 0 then Name([], true)
    else if IsPointer(data[off]) then
      if off + 1 >= |data| || jumps == 0 || Target(data[off], data[off + 1]) >= off then Broken
      else Labels(data, Target(data[off], data[off + 1]), jumps - 1)
    else if IsReserved(data[off]) || off + 1 + data[off] as nat > |data| then Broken
    else Prepend([data[off + 1..off + 1 + data[off] as nat]], Labels(data, off + 1 + data[off] as nat, jumps))
  }

  /** Where the name ends: past its zero byte or its first pointer, wherever that leads. */
  function EndOffset(data: bytes, off: nat): nat
    decreases After(data, off)
  {
    if off >= |data| then off
    else if data[off] == 0 then off + 1
    else if IsPointer(data[off]) then off + 2
    else EndOffset(data, off + 1 + data[off] as nat)
  }

  /** The pointers followed from `off` on, each as its position and its target. */
  ghost function Hops(data: bytes, off: nat, jumps: nat): seq<(nat, nat)>
    decreases jumps, After(data, off)
  {
    if off >= |data| || data[off] == 0 then []
    else if IsPointer(data[off]) then
      if off + 1 >= |data| || jumps == 0 || Target(data[off], data[off + 1]) >= off then []
      else
        var target := Target(data[off], data[off + 1]);
        [(off, target)] + Hops(data, target, jumps - 1)
    else if IsReserved(data[off]) || off + 1 + data[off] as nat > |data| then []
    else Hops(data, off + 1 + data[off] as nat, jumps)
  }

  function ParsedName(data: bytes, off: nat): Result<(bytes, nat)> {
    match Labels(data, off, MAX_JUMPS)
    case Name(labels, _) => Ok((Join(labels), EndOffset(data, off)))
    case Broken => Malformed
  }

  // The parser.

  lemma {:induction false} JoinSnoc(labels: seq<Label>, l: Label)
    requires labels != []
    ensures Join(labels + [l]) == Join(labels) + [DOT] + l
    decreases |labels|
  {
    assert (labels + [l])[1..] == labels[1..] + [l];
    if |labels| > 1 {
      JoinSnoc(labels[1..], l);
    }
  }

  /** Appending to the text: the dot is missing only in front of the first label. */
  lemma AppendToText(done: seq<Label>, l: Label)
    requires Proper(done) && 1 <= |l| <= 63
    ensures Proper(done + [l])
    ensures Join(done + [l]) == (if |Join(done)| > 0 then Join(done) + [DOT] else Join(done)) + l
  {
    if done != [] {
      assert 1 <= |done[0]|;
      JoinSnoc(done, l);
    }
  }

  lemma PrependPrepend(a: seq<Label>, b: seq<Label>, w: Walk)
    ensures Prepend(a, Prepend(b, w)) == Prepend(a + b, w)
  {
    if w.Name? {
      assert a + (b + w.labels) == (a + b) + w.labels;
    }
  }

  /** What the length byte at the current offset makes of the name. */
  lemma LengthByteCases(data: bytes, off: nat, jumps: nat)
    requires off < |data|
    ensures var b := data[off];
            && (b == 0 ==> Labels(data, off, jumps) == Name([], true) && EndOffset(data, off) == off + 1)
            && (IsPointer(b) ==> EndOffset(data, off) == off + 2)
            && (IsPointer(b) && (off + 1 >= |data| || jumps == 0 || Target(b, data[off + 1]) >= off) ==>
                  Labels(data, off, jumps) == Broken)
            && (IsPointer(b) && off + 1 < |data| && jumps > 0 && Target(b, data[off + 1]) < off ==>
                  Labels(data, off, jumps) == Labels(data, Target(b, data[off + 1]), jumps - 1))
            && (IsReserved(b) ==> Labels(data, off, jumps) == Broken)
            && (0 < b < 0x40 ==> EndOffset(data, off) == EndOffset(data, off + 1 + b as nat))
            && (0 < b < 0x40 && off + 1 + b as nat > |data| ==> Labels(data, off, jumps) == Broken)
            && (0 < b < 0x40 && off + 1 + b as nat <= |data| ==>
                  Labels(data, off, jumps) == Prepend([data[off + 1..off + 1 + b as nat]],
                                                      Labels(data, off + 1 + b as nat, jumps)))
  {
  }

  lemma HopsAppend(hops: seq<(nat, nat)>, h: (nat, nat), rest: seq<(nat, nat)>)
    ensures hops + ([h] + rest) == (hops + [h]) + rest
  {
  }

  lemma HopsCases(data: bytes, off: nat, jumps: nat)
    requires off < |data|
    ensures var b := data[off];
            && (IsPointer(b) && off + 1 < |data| && jumps > 0 && Target(b, data[off + 1]) < off ==>
                  Hops(data, off, jumps) ==
                  [(off, Target(b, data[off + 1]))] + Hops(data, Target(b, data[off + 1]), jumps - 1))
            && (0 < b < 0x40 && off + 1 + b as nat <= |data| ==>
                  Hops(data, off, jumps) == Hops(data, off + 1 + b as nat, jumps))
            && (b == 0 || IsReserved(b) ==> Hops(data, off, jumps) == [])
            && (IsPointer(b) && (off + 1 >= |data| || jumps == 0 || Target(b, data[off + 1]) >= off) ==>
                  Hops(data, off, jumps) == [])
            && (0 < b < 0x40 && off + 1 + b as nat > |data| ==> Hops(data, off, jumps) == [])
  {
  }

  lemma PastTheEnd(data: bytes, off: nat, jumps: nat)
    requires off >= |data|
    ensures Labels(data, off, jumps) == Name([], false) && EndOffset(data, off) == off
    ensures Hops(data, off, jumps) == []
  {
  }

  /** The loop's variables, and what has been parsed with them. */
  datatype Cursor = Cursor(text: bytes, current: nat, returnOffset: nat, jumped: bool, jumpsLeft: nat)

  /** What is known between rounds: the labels and pointers so far, in front of those still to come. */
  ghost predicate OnTrack(data: bytes, offset: nat, c: Cursor, done: seq<Label>, hops: seq<(nat, nat)>) {
    && Labels(data, offset, MAX_JUMPS) == Prepend(done, Labels(data, c.current, c.jumpsLeft))
    && EndOffset(data, offset) == (if c.jumped then c.returnOffset else EndOffset(data, c.current))
    && Proper(done) && c.text == Join(done)
    && Hops(data, offset, MAX_JUMPS) == hops + Hops(data, c.current, c.jumpsLeft)
  }

  lemma StartOnTrack(data: bytes, offset: nat)
    ensures OnTrack(data, offset, Cursor([], offset, offset, false, MAX_JUMPS), [], [])
  {
    assert Prepend([], Labels(data, offset, MAX_JUMPS)) == Labels(data, offset, MAX_JUMPS);
  }

  lemma FollowPointer(data: bytes, offset: nat, c: Cursor, done: seq<Label>, hops: seq<(nat, nat)>, ptr: nat)
    requires OnTrack(data, offset, c, done, hops) && c.current + 1 < |data| && c.jumpsLeft > 0
    requires IsPointer(data[c.current]) && ptr == Target(data[c.current], data[c.current + 1]) < c.current
    ensures var returnOffset := if c.jumped then c.returnOffset else c.current + 2;
            OnTrack(data, offset, Cursor(c.text, ptr, returnOffset, true, c.jumpsLeft - 1), done, hops + [(c.current, ptr)])
  {
    hide Labels, EndOffset, Hops;
    LengthByteCases(data, c.current, c.jumpsLeft);
    HopsCases(data, c.current, c.jumpsLeft);
    HopsAppend(hops, (c.current, ptr), Hops(data, ptr, c.jumpsLeft - 1));
  }

  lemma TakeLabel(data: bytes, offset: nat, c: Cursor, done: seq<Label>, hops: seq<(nat, nat)>, next: nat)
    requires OnTrack(data, offset, c, done, hops) && c.current < |data| && 0 < data[c.current] < 0x40
    requires next == c.current + 1 + data[c.current] as nat <= |data|
    ensures var piece := data[c.current + 1..next];
            var text := (if |c.text| > 0 then c.text + [DOT] else c.text) + piece;
            OnTrack(data, offset, c.(text := text, current := next), done + [piece], hops)
  {
    hide Labels, EndOffset, Hops;
    var piece := data[c.current + 1..next];
    LengthByteCases(data, c.current, c.jumpsLeft);
    HopsCases(data, c.current, c.jumpsLeft);
    AppendToText(done, piece);
    PrependPrepend(done, [piece], Labels(data, next, c.jumpsLeft));
  }

  /** The walk stops here with an error. */
  lemma Fails(data: bytes, offset: nat, c: Cursor, done: seq<Label>, hops: seq<(nat, nat)>)
    requires OnTrack(data, offset, c, done, hops) && c.current < |data| && data[c.current] != 0
    requires var b := data[c.current];
             || IsReserved(b) || (b < 0x40 && c.current + 1 + b as nat > |data|)
             || (IsPointer(b) && (c.current + 1 >= |data| || c.jumpsLeft == 0
                                  || Target(b, data[c.current + 1]) >= c.current))
    ensures ParsedName(data, offset) == Malformed && hops == Hops(data, offset, MAX_JUMPS)
  {
    hide Labels, EndOffset, Hops;
    LengthByteCases(data, c.current, c.jumpsLeft);
    HopsCases(data, c.current, c.jumpsLeft);
    assert hops + [] == hops;
  }

  /** The walk stops here with a name. */
  lemma Ends(data: bytes, offset: nat, c: Cursor, done: seq<Label>, hops: seq<(nat, nat)>)
    requires OnTrack(data, offset, c, done, hops) && (c.current >= |data| || data[c.current] == 0)
    ensures var end := if c.current < |data| then c.current + 1 else c.current;
            ParsedName(data, offset) == Ok((c.text, if c.jumped then c.returnOffset else end))
    ensures hops == Hops(data, offset, MAX_JUMPS)
  {
    hide Labels, EndOffset, Hops;
    if c.current < |data| {
      LengthByteCases(data, c.current, c.jumpsLeft);
      HopsCases(data, c.current, c.jumpsLeft);
    } else {
      PastTheEnd(data, c.current, c.jumpsLeft);
    }
    assert hops + [] == hops && done + [] == done;
  }

  /**
   * `parseDomainName`: one loop with an offset that jumps, a frozen return offset and an
   * accumulator for the dotted text. No index leaves the data, whatever the bytes are; `hops`
   * records the pointers as they are followed.
   */
  method ParseDomainName(data: bytes, offset: nat) returns (r: Result<(bytes, nat)>, ghost hops: seq<(nat, nat)>)
    ensures r == ParsedName(data, offset)
    ensures hops == Hops(data, offset, MAX_JUMPS)
  {
    hide OnTrack, ParsedName, Labels, EndOffset, Hops;
    var text: bytes := [];
    var current: nat, returnOffset: nat := offset, offset;
    var jumped := false;
    var jumpsLeft: nat := MAX_JUMPS;
    hops := [];
    ghost var done: seq<Label> := [];
    StartOnTrack(data, offset);
    while current < |data|
      invariant OnTrack(data, offset, Cursor(text, current, returnOffset, jumped, jumpsLeft), done, hops)
      decreases jumpsLeft, After(data, current)
    {
      ghost var c := Cursor(text, current, returnOffset, jumped, jumpsLeft);
      var lenByte := data[current];
      if lenByte == 0 {
        Ends(data, offset, c, done, hops);
        current := current + 1;
        return Ok((text, if jumped then returnOffset else current)), hops;
      }
      if IsPointer(lenByte) {
        if current + 1 >= |data| {
          Fails(data, offset, c, done, hops);
          return Malformed, hops;
        }
        if jumpsLeft == 0 {
          Fails(data, offset, c, done, hops);
          return Malformed, hops;
        }
        var ptr := Target(lenByte, data[current + 1]);
        if ptr >= current {
          Fails(data, offset, c, done, hops);
          return Malformed, hops;
        }
        FollowPointer(data, offset, c, done, hops, ptr);
        jumpsLeft := jumpsLeft - 1;
        if !jumped {
          returnOffset := current + 2;
          jumped := true;
        }
        hops := hops + [(current, ptr)];
        current := ptr;
        continue;
      }
      if IsReserved(lenByte) {
        Fails(data, offset, c, done, hops);
        return Malformed, hops;
      }
      var length := lenByte as nat;
      if current + 1 + length > |data| {
        Fails(data, offset, c, done, hops);
        return Malformed, hops;
      }
      TakeLabel(data, offset, c, done, hops, current + 1 + length);
      var piece := data[current + 1..current + 1 + length];
      text := (if |text| > 0 then text + [DOT] else text) + piece;
      done := done + [piece];
      current := current + 1 + length;
    }
    Ends(data, offset, Cursor(text, current, returnOffset, jumped, jumpsLeft), done, hops);
    return Ok((text, if jumped then returnOffset else current)), hops;
  }

  // The parser computes the names RFC 1035 describes.

  lemma LengthHere(data: bytes, off: nat, l: Label)
    requires 1 <= |l| <= 63 && Has(data, off, EncodeLabel(l))
    ensures data[off] as nat == |l| && data[off + 1..off + 1 + |l|] == l
  {
    var here := data[off..off + |EncodeLabel(l)|];
    assert data[off] == here[0] && data[off + 1..off + 1 + |l|] == here[1..];
  }

  lemma LabelHere(data: bytes, off: nat, l: Label, jumps: nat)
    requires 1 <= |l| <= 63 && Has(data, off, EncodeLabel(l))
    ensures Labels(data, off, jumps) == Prepend([l], Labels(data, off + 1 + |l|, jumps))
  {
    LengthHere(data, off, l);
  }

  /** Labels in front only put themselves in front of what follows. */
  lemma {:induction false} LabelsThen(data: bytes, off: nat, own: seq<Label>, next: nat, jumps: nat)
    requires Proper(own) && Has(data, off, EncodeLabels(own)) && next == off + |EncodeLabels(own)|
    ensures Labels(data, off, jumps) == Prepend(own, Labels(data, next, jumps))
    decreases |own|
  {
    hide Labels;
    var w := Labels(data, next, jumps);
    if own == [] {
      assert Prepend([], w) == w;
    } else {
      var l, rest := own[0], own[1..];
      HasParts(data, off, EncodeLabel(l), EncodeLabels(rest));
      LabelHere(data, off, l, jumps);
      LabelsThen(data, off + 1 + |l|, rest, next, jumps);
      PrependPrepend([l], rest, w);
      assert [l] + rest == own;
    }
  }

  lemma {:induction false} EndThen(data: bytes, off: nat, own: seq<Label>, next: nat)
    requires Proper(own) && Has(data, off, EncodeLabels(own)) && next == off + |EncodeLabels(own)|
    ensures EndOffset(data, off) == EndOffset(data, next)
    decreases |own|
  {
    hide EndOffset;
    if own != [] {
      var l, rest := own[0], own[1..];
      HasParts(data, off, EncodeLabel(l), EncodeLabels(rest));
      LengthHere(data, off, l);
      LengthByteCases(data, off, 0);
      EndThen(data, off + 1 + |l|, rest, next);
    }
  }

  lemma LabelsThenZero(data: bytes, off: nat, own: seq<Label>, jumps: nat)
    requires Proper(own) && Has(data, off, EncodeLabels(own) + [0])
    ensures Labels(data, off, jumps) == Name(own, true)
    ensures EndOffset(data, off) == off + |EncodeLabels(own)| + 1
  {
    var next := off + |EncodeLabels(own)|;
    HasParts(data, off, EncodeLabels(own), [0]);
    assert data[next] == data[next..next + 1][0];
    assert own + [] == own;
    LabelsThen(data, off, own, next, jumps);
    EndThen(data, off, own, next);
  }

  /** A name ends past its first pointer. */
  lemma PointerEnds(data: bytes, off: nat, own: seq<Label>, hi: byte, lo: byte)
    requires Proper(own) && IsPointer(hi) && Has(data, off, EncodeLabels(own) + [hi, lo])
    ensures var next := off + |EncodeLabels(own)|;
            && EndOffset(data, off) == next + 2 && next + 2 <= |data|
            && data[next] == hi && data[next + 1] == lo
  {
    var next := off + |EncodeLabels(own)|;
    HasParts(data, off, EncodeLabels(own), [hi, lo]);
    assert data[next] == data[next..next + 2][0] && data[next + 1] == data[next..next + 2][1];
    EndThen(data, off, own, next);
  }

  /** Labels followed by a pointer: those labels joined to the name at the target. */
  lemma LabelsThenPointer(data: bytes, off: nat, own: seq<Label>, hi: byte, lo: byte, jumps: nat)
    requires Proper(own) && IsPointer(hi) && Has(data, off, EncodeLabels(own) + [hi, lo])
    requires Target(hi, lo) < off + |EncodeLabels(own)| && jumps > 0
    ensures Labels(data, off, jumps) == Prepend(own, Labels(data, Target(hi, lo), jumps - 1))
    ensures EndOffset(data, off) == off + |EncodeLabels(own)| + 2
  {
    var next := off + |EncodeLabels(own)|;
    PointerEnds(data, off, own, hi, lo);
    HasParts(data, off, EncodeLabels(own), [hi, lo]);
    LabelsThen(data, off, own, next, jumps);
  }

  lemma {:induction false} DenotesIsParsed(data: bytes, off: nat, labels: seq<Label>, hops: nat)
    requires Denotes(data, off, labels, hops)
    ensures Labels(data, off, hops) == Name(labels, true)
    decreases hops
  {
    if SpeltOut(data, off, labels) {
      LabelsThenZero(data, off, labels, hops);
    } else {
      var n: nat, hi: byte, lo: byte :| n <= |labels| && PointsOn(data, off, labels, n, hi, lo)
                                        && Denotes(data, Target(hi, lo), labels[n..], hops - 1);
      DenotesIsParsed(data, Target(hi, lo), labels[n..], hops - 1);
      LabelsThenPointer(data, off, labels[..n], hi, lo, hops);
      assert labels[..n] + labels[n..] == labels;
    }
  }

  lemma EncodeCons(l: Label, labels: seq<Label>, tail: bytes)
    requires |l| < 0x100 && Encodable(labels)
    ensures Encodable([l] + labels)
    ensures EncodeLabels([l] + labels) + tail == EncodeLabel(l) + (EncodeLabels(labels) + tail)
    ensures |EncodeLabels([l] + labels)| == 1 + |l| + |EncodeLabels(labels)|
  {
    assert ([l] + labels)[1..] == labels;
  }

  lemma PointsOnCons(data: bytes, off: nat, l: Label, labels: seq<Label>, n: nat, hi: byte, lo: byte)
    requires 1 <= |l| <= 63 && Has(data, off, EncodeLabel(l))
    requires PointsOn(data, off + 1 + |l|, labels, n, hi, lo)
    ensures PointsOn(data, off, [l] + labels, n + 1, hi, lo)
  {
    var own := labels[..n];
    assert ([l] + labels)[..n + 1] == [l] + own;
    EncodeCons(l, own, [hi, lo]);
    HasParts(data, off, EncodeLabel(l), EncodeLabels(own) + [hi, lo]);
  }

  lemma SpeltOutCons(data: bytes, off: nat, l: Label, labels: seq<Label>)
    requires 1 <= |l| <= 63 && Has(data, off, EncodeLabel(l))
    requires SpeltOut(data, off + 1 + |l|, labels)
    ensures SpeltOut(data, off, [l] + labels)
  {
    EncodeCons(l, labels, [0]);
    HasParts(data, off, EncodeLabel(l), EncodeLabels(labels) + [0]);
  }

  /** One more label in front of a name. */
  lemma DenotesCons(data: bytes, off: nat, l: Label, labels: seq<Label>, hops: nat)
    requires 1 <= |l| <= 63 && Has(data, off, EncodeLabel(l))
    requires Denotes(data, off + 1 + |l|, labels, hops)
    ensures Denotes(data, off, [l] + labels, hops)
  {
    hide PointsOn, SpeltOut, EncodeLabels;
    var next, all := off + 1 + |l|, [l] + labels;
    if SpeltOut(data, next, labels) {
      SpeltOutCons(data, off, l, labels);
    } else {
      var n: nat, hi: byte, lo: byte :| n <= |labels| && PointsOn(data, next, labels, n, hi, lo)
                                        && Denotes(data, Target(hi, lo), labels[n..], hops - 1);
      PointsOnCons(data, off, l, labels, n, hi, lo);
      assert all[n + 1..] == labels[n..];
    }
  }

  lemma ZeroDenotes(data: bytes, off: nat, hops: nat)
    requires off < |data| && data[off] == 0
    ensures Denotes(data, off, [], hops)
  {
    assert SpeltOut(data, off, []);
  }

  /** A pointer with nothing in front. */
  lemma PointerDenotesTarget(data: bytes, off: nat, labels: seq<Label>, hops: nat)
    requires off + 1 < |data| && IsPointer(data[off]) && Target(data[off], data[off + 1]) < off && hops > 0
    requires Denotes(data, Target(data[off], data[off + 1]), labels, hops - 1)
    ensures Denotes(data, off, labels, hops)
  {
    var hi, lo := data[off], data[off + 1];
    assert labels[0..] == labels && EncodeLabels(labels[..0]) + [hi, lo] == [hi, lo];
    assert PointsOn(data, off, labels, 0, hi, lo);
  }

  lemma {:induction false} ParsedIsDenoted(data: bytes, off: nat, hops: nat)
    requires Labels(data, off, hops).Name? && Labels(data, off, hops).ended
    ensures Denotes(data, off, Labels(data, off, hops).labels, hops)
    decreases hops, After(data, off)
  {
    hide Labels, Denotes, Has, EncodeLabel, EndOffset;
    if off >= |data| {
      PastTheEnd(data, off, hops);
      assert false;
    } else {
      LengthByteCases(data, off, hops);
      if data[off] == 0 {
        ZeroDenotes(data, off, hops);
      } else if IsPointer(data[off]) {
        ParsedIsDenoted(data, Target(data[off], data[off + 1]), hops - 1);
        PointerDenotesTarget(data, off, Labels(data, off, hops).labels, hops);
      } else {
        var next := off + 1 + data[off] as nat;
        ParsedIsDenoted(data, next, hops);
        LabelStands(data, off);
        DenotesCons(data, off, data[off + 1..next], Labels(data, next, hops).labels, hops);
      }
    }
  }

  lemma LabelStands(data: bytes, off: nat)
    requires off < |data| && data[off] < 0x40 && off + 1 + data[off] as nat <= |data|
    ensures Has(data, off, EncodeLabel(data[off + 1..off + 1 + data[off] as nat]))
  {
  }

  /**
   * The parser accepts exactly the names of section 4.1.4 with at most sixteen pointers, plus
   * those that run off the end of the data; only the former end in a zero byte.
   */
  lemma ParserMeetsRfc1035(data: bytes, off: nat, labels: seq<Label>)
    ensures Denotes(data, off, labels, 16) <==>
            Labels(data, off, 16) == Name(labels, true)
  {
    if Denotes(data, off, labels, MAX_JUMPS) {
      DenotesIsParsed(data, off, labels, MAX_JUMPS);
    }
    if Labels(data, off, MAX_JUMPS) == Name(labels, true) {
      ParsedIsDenoted(data, off, MAX_JUMPS);
    }
  }

  ghost predicate Meant(data: bytes, off: nat) {
    exists labels :: Denotes(data, off, labels, MAX_JUMPS)
  }

  /** A name cut off by the end of the data is accepted, though it denotes nothing. */
  lemma CutOffNameAccepted()
    ensures var data: bytes := [1, 97];
            ParsedName(data, 0) == Ok(([97], 2)) && !Meant(data, 0)
  {
    var data: bytes := [1, 97];
    assert data[0 + 1..0 + 1 + data[0] as nat] == [97];
    assert Labels(data, 2, MAX_JUMPS) == Name([], false);
    assert Labels(data, 0, MAX_JUMPS) == Name([[97]], false);
    assert EndOffset(data, 2) == 2;
    forall labels: seq<Label>
      ensures !Denotes(data, 0, labels, MAX_JUMPS)
    {
      ParserMeetsRfc1035(data, 0, labels);
    }
  }

  /** A label that ends exactly where the data ends, so that no zero byte can follow it. */
  ghost predicate FlushLabel(data: bytes, i: nat) {
    i < |data| && 1 <= data[i] <= 63 && i + 1 + data[i] as nat == |data|
  }

  lemma {:induction false} CutOffByFlushLabel(data: bytes, off: nat, jumps: nat) returns (i: nat)
    requires off < |data| && Labels(data, off, jumps).Name? && !Labels(data, off, jumps).ended
    ensures FlushLabel(data, i)
    decreases jumps, After(data, off)
  {
    if IsPointer(data[off]) {
      i := CutOffByFlushLabel(data, Target(data[off], data[off + 1]), jumps - 1);
    } else {
      var next := off + 1 + data[off] as nat;
      if next == |data| {
        i := off;
      } else {
        i := CutOffByFlushLabel(data, next, jumps);
      }
    }
  }

  lemma FlushLabelAccepted(data: bytes, i: nat)
    requires FlushLabel(data, i)
    ensures ParsedName(data, i).Ok? && !Meant(data, i)
  {
    LengthByteCases(data, i, MAX_JUMPS);
    PastTheEnd(data, |data|, MAX_JUMPS);
    forall labels: seq<Label>
      ensures !Denotes(data, i, labels, MAX_JUMPS)
    {
      ParserMeetsRfc1035(data, i, labels);
    }
  }

  /** Without such a label whatever the parser accepts has a meaning. */
  lemma AcceptedIsMeant(data: bytes, off: nat)
    requires off < |data| && ParsedName(data, off).Ok? && forall i: nat :: !FlushLabel(data, i)
    ensures Meant(data, off)
  {
    if !Labels(data, off, MAX_JUMPS).ended {
      var i := CutOffByFlushLabel(data, off, MAX_JUMPS);
      assert false;
    }
    ParserMeetsRfc1035(data, off, Labels(data, off, MAX_JUMPS).labels);
  }

  /**
   * In which data every accepted name has a meaning, wherever it starts: exactly in data where no
   * byte from 1 to 63 counts the bytes that are left after it.
   */
  lemma AcceptedIsMeantIff(data: bytes)
    ensures (forall off: nat :: off < |data| && ParsedName(data, off).Ok? ==> Meant(data, off))
            <==> (forall i: nat :: !FlushLabel(data, i))
  {
    hide ParsedName, Meant;
    if forall i: nat :: !FlushLabel(data, i) {
      forall off: nat | off < |data| && ParsedName(data, off).Ok?
        ensures Meant(data, off)
      {
        AcceptedIsMeant(data, off);
      }
    } else {
      var i: nat :| FlushLabel(data, i);
      FlushLabelAccepted(data, i);
    }
  }

  // The limit of 255 bytes, which neither the parser nor the encoder knows.

  /** The dotted text is one byte shorter than the encoded labels. */
  lemma {:induction false} JoinLength(labels: seq<Label>)
    requires Encodable(labels)
    ensures labels == [] ==> |Join(labels)| == |EncodeLabels(labels)| == 0
    ensures labels != [] ==> |Join(labels)| + 1 == |EncodeLabels(labels)|
    decreases |labels|
  {
    if labels != [] {
      JoinLength(labels[1..]);
    }
  }

  lemma {:induction false} DenotedIsProper(data: bytes, off: nat, labels: seq<Label>, hops: nat)
    requires Denotes(data, off, labels, hops)
    ensures Proper(labels)
    decreases hops
  {
    hide Has, EncodeLabels, Target;
    if !SpeltOut(data, off, labels) {
      var n: nat, hi: byte, lo: byte :| n <= |labels| && PointsOn(data, off, labels, n, hi, lo)
                                        && Denotes(data, Target(hi, lo), labels[n..], hops - 1);
      DenotedIsProper(data, Target(hi, lo), labels[n..], hops - 1);
      ProperParts(labels, n);
    }
  }

  lemma ProperParts(labels: seq<Label>, n: nat)
    requires n <= |labels| && Proper(labels[..n]) && Proper(labels[n..])
    ensures Proper(labels)
  {
    forall i | 0 <= i < |labels|
      ensures 1 <= |labels[i]| <= 63
    {
      if i < n {
        assert labels[i] == labels[..n][i];
      } else {
        assert labels[i] == labels[n..][i - n];
      }
    }
  }

  /** A name RFC 1035 allows stands at `off`. */
  ghost predicate Legal(data: bytes, off: nat) {
    exists labels :: Denotes(data, off, labels, MAX_JUMPS) && Proper(labels) && WithinLimit(labels)
  }

  /** Of the names with a meaning, the legal ones are those whose text has at most 253 bytes. */
  lemma LegalIffShort(data: bytes, off: nat, labels: seq<Label>)
    requires Denotes(data, off, labels, MAX_JUMPS)
    ensures Proper(labels) && (WithinLimit(labels) <==> |Join(labels)| <= 253)
    ensures Legal(data, off) <==> |Join(labels)| <= 253
  {
    hide Denotes, EncodeLabels;
    DenotedIsProper(data, off, labels, MAX_JUMPS);
    JoinLength(labels);
    if ls: seq<Label> :| Denotes(data, off, ls, MAX_JUMPS) && Proper(ls) && WithinLimit(ls) {
      ParserMeetsRfc1035(data, off, labels);
      ParserMeetsRfc1035(data, off, ls);
    }
  }

  /**
   * What a caller can rely on: in data without a label that is flush with its end, an accepted
   * name is legal exactly when the text it gives has at most 253 bytes.
   */
  lemma AcceptedIsLegalIff(data: bytes, off: nat)
    requires off < |data| && ParsedName(data, off).Ok? && forall i: nat :: !FlushLabel(data, i)
    ensures Legal(data, off) <==> |ParsedName(data, off).value.0| <= 253
  {
    AcceptedIsMeant(data, off);
    var labels :| Denotes(data, off, labels, MAX_JUMPS);
    ParserMeetsRfc1035(data, off, labels);
    LegalIffShort(data, off, labels);
  }

  /** Which data gives only legal names: no flush label, and no accepted text above 253 bytes. */
  lemma AllLegalIff(data: bytes)
    ensures (forall off: nat :: off < |data| && ParsedName(data, off).Ok? ==> Legal(data, off))
            <==> && (forall i: nat :: !FlushLabel(data, i))
                 && (forall off: nat :: off < |data| && ParsedName(data, off).Ok? ==>
                                          |ParsedName(data, off).value.0| <= 253)
  {
    hide ParsedName, Legal, Denotes;
    if forall i: nat :: !FlushLabel(data, i) {
      forall off: nat | off < |data| && ParsedName(data, off).Ok?
        ensures Legal(data, off) <==> |ParsedName(data, off).value.0| <= 253
      {
        AcceptedIsLegalIff(data, off);
      }
    } else {
      var i: nat :| FlushLabel(data, i);
      FlushLabelAccepted(data, i);
      if Legal(data, i) {
        LegalIsMeant(data, i);
        assert false;
      }
    }
  }

  lemma LegalIsMeant(data: bytes, off: nat)
    requires Legal(data, off)
    ensures Meant(data, off)
  {
  }

  function LongestLabel(): Label {
    seq(63, _ => 97)
  }

  function Repeated(n: nat): seq<Label> {
    seq(n, _ => LongestLabel())
  }

  lemma {:induction false} RepeatedBytes(n: nat)
    ensures Proper(Repeated(n)) && |EncodeLabels(Repeated(n))| == 64 * n
    ensures forall i :: 0 <= i < 64 * n ==> EncodeLabels(Repeated(n))[i] == if i % 64 == 0 then 63 else 97
    decreases n
  {
    if n > 0 {
      RepeatedBytes(n - 1);
      assert Repeated(n)[1..] == Repeated(n - 1);
      var first, rest := EncodeLabel(LongestLabel()), EncodeLabels(Repeated(n - 1));
      assert EncodeLabels(Repeated(n)) == first + rest;
      forall i | 0 <= i < 64 * n
        ensures (first + rest)[i] == if i % 64 == 0 then 63 else 97
      {
        if i >= 64 {
          assert (first + rest)[i] == rest[i - 64];
        }
      }
    }
  }

  /** Five labels of 63 bytes: accepted, with a meaning and no flush label, but far too long. */
  lemma OverlongNameAccepted() returns (data: bytes, labels: seq<Label>)
    ensures ParsedName(data, 0) == Ok((Join(labels), 321)) && Denotes(data, 0, labels, MAX_JUMPS)
    ensures (forall i: nat :: !FlushLabel(data, i)) && !Legal(data, 0)
  {
    labels := Repeated(5);
    RepeatedBytes(5);
    data := EncodeLabels(labels) + [0];
    assert data[0..|data|] == data;
    LabelsThenZero(data, 0, labels, MAX_JUMPS);
    ParserMeetsRfc1035(data, 0, labels);
    JoinLength(labels);
    LegalIffShort(data, 0, labels);
  }

  // How far pointers are followed.

  /**
   * A name spelt out at p[0], and at each later place a pointer to the place before, in the two
   * bytes 11oooooo oooooooo of section 4.1.4 of RFC 1035.
   */
  ghost predicate PointerChain(data: bytes, p: seq<nat>, name: seq<Label>) {
    && p != [] && SpeltOut(data, p[0], name)
    && forall i :: 1 <= i < |p| ==>
                     && p[i - 1] < p[i] && p[i] + 1 < |data| && data[p[i]] >= 192
                     && p[i - 1] == (data[p[i]] as nat - 192) * 256 + data[p[i] + 1] as nat
  }

  lemma {:induction false} WalkChain(data: bytes, p: seq<nat>, name: seq<Label>, jumps: nat)
    requires PointerChain(data, p, name)
    ensures Labels(data, p[|p| - 1], jumps) == if |p| <= jumps + 1 then Name(name, true) else Broken
    ensures EndOffset(data, p[|p| - 1]) == if |p| == 1 then p[0] + |EncodeLabels(name)| + 1 else p[|p| - 1] + 2
    ensures |p| <= jumps + 1 ==> |Hops(data, p[|p| - 1], jumps)| == |p| - 1
    decreases |p|
  {
    hide Labels, EndOffset, Hops, SpeltOut, EncodeLabels;
    var off := p[|p| - 1];
    if |p| == 1 {
      SpeltOutWalk(data, off, name, jumps);
    } else {
      LengthByteCases(data, off, jumps);
      HopsCases(data, off, jumps);
      if jumps > 0 {
        WalkChain(data, p[..|p| - 1], name, jumps - 1);
      }
    }
  }

  lemma SpeltOutWalk(data: bytes, off: nat, name: seq<Label>, jumps: nat)
    requires SpeltOut(data, off, name)
    ensures Labels(data, off, jumps) == Name(name, true) && Hops(data, off, jumps) == []
    ensures EndOffset(data, off) == off + |EncodeLabels(name)| + 1
  {
    LabelsThenZero(data, off, name, jumps);
    SpeltOutNoHops(data, off, name, jumps);
  }

  lemma {:induction false} SpeltOutNoHops(data: bytes, off: nat, name: seq<Label>, jumps: nat)
    requires SpeltOut(data, off, name)
    ensures Hops(data, off, jumps) == []
    decreases |name|
  {
    hide Hops;
    if name == [] {
      assert data[off] == data[off..off + 1][0];
      HopsCases(data, off, jumps);
    } else {
      var l, rest := name[0], name[1..];
      assert [l] + rest == name;
      EncodeCons(l, rest, [0]);
      HasParts(data, off, EncodeLabel(l), EncodeLabels(rest) + [0]);
      LengthHere(data, off, l);
      HopsCases(data, off, jumps);
      SpeltOutNoHops(data, off + 1 + |l|, rest, jumps);
    }
  }

  /** Sixteen pointers in a row are followed to the name they lead to; seventeen are an error. */
  lemma SixteenPointersFollowed(data: bytes, p: seq<nat>, name: seq<Label>)
    requires PointerChain(data, p, name)
    ensures ParsedName(data, p[|p| - 1]).Ok? <==> |p| <= 17
    ensures |p| <= 17 ==> ParsedName(data, p[|p| - 1]).value.0 == Join(name)
    ensures 1 < |p| <= 17 ==> ParsedName(data, p[|p| - 1]).value.1 == p[|p| - 1] + 2
  {
    WalkChain(data, p, name, MAX_JUMPS);
  }

  /** The arithmetic used for length bytes and pointers is the source's arithmetic on bits. */
  lemma ArithmeticIsBits(hi: bv16, lo: bv16)
    requires hi < 0x100 && lo < 0x100
    ensures hi & 0xC0 == 0xC0 <==> hi >= 0xC0
    ensures hi & 0xC0 != 0 <==> hi >= 0x40
    ensures hi >= 0xC0 ==> ((hi & 0x3F) << 8) | lo == (hi - 0xC0) * 0x100 + lo
  {
  }

  // Bounds.

  /** At most as many pointers as allowed, each to a strictly earlier position in the data. */
  lemma {:induction false} HopsGoBack(data: bytes, off: nat, jumps: nat)
    ensures |Hops(data, off, jumps)| <= jumps
    ensures forall h :: h in Hops(data, off, jumps) ==> h.1 < h.0 < |data|
    decreases jumps, After(data, off)
  {
    if off < |data| && data[off] != 0 {
      if IsPointer(data[off]) {
        if off + 1 < |data| && jumps > 0 && Target(data[off], data[off + 1]) < off {
          HopsGoBack(data, Target(data[off], data[off + 1]), jumps - 1);
        }
      } else if !IsReserved(data[off]) && off + 1 + data[off] as nat <= |data| {
        HopsGoBack(data, off + 1 + data[off] as nat, jumps);
      }
    }
  }

  ghost function Weight(labels: seq<Label>): nat {
    if labels == [] then 0 else |labels[0]| + 1 + Weight(labels[1..])
  }

  lemma {:induction false} JoinWeight(labels: seq<Label>)
    ensures |Join(labels)| <= Weight(labels)
    decreases |labels|
  {
    if |labels| > 1 {
      JoinWeight(labels[1..]);
    }
  }

  lemma {:induction false} LabelsWeight(data: bytes, off: nat, jumps: nat)
    requires Labels(data, off, jumps).Name?
    ensures Weight(Labels(data, off, jumps).labels) <= After(data, off) + jumps * |data|
    decreases jumps, After(data, off)
  {
    if off < |data| && data[off] != 0 {
      if IsPointer(data[off]) {
        LabelsWeight(data, Target(data[off], data[off + 1]), jumps - 1);
        assert jumps * |data| == (jumps - 1) * |data| + |data|;
      } else {
        var next := off + 1 + data[off] as nat;
        LabelsWeight(data, next, jumps);
        var rest := Labels(data, next, jumps).labels;
        assert ([data[off + 1..next]] + rest)[1..] == rest;
      }
    }
  }

  /** The text of a name is at most seventeen times as long as the message. */
  lemma NameLengthBound(data: bytes, off: nat)
    requires ParsedName(data, off).Ok?
    ensures |ParsedName(data, off).value.0| <= 17 * |data|
  {
    LabelsWeight(data, off, MAX_JUMPS);
    JoinWeight(Labels(data, off, MAX_JUMPS).labels);
  }

  /** A successful parse moves forward and stays inside the data, wherever pointers lead. */
  lemma {:induction false} ParseMovesForward(data: bytes, off: nat, jumps: nat)
    requires off < |data| && Labels(data, off, jumps).Name?
    ensures off < EndOffset(data, off) <= |data|
    decreases After(data, off)
  {
    if data[off] != 0 && !IsPointer(data[off]) {
      var next := off + 1 + data[off] as nat;
      if next < |data| {
        ParseMovesForward(data, next, jumps);
      }
    }
  }

  // The encoder.

  /** `mem.split` on dots (byte 46): the pieces between them, at least one. */
  function Split(s: bytes): (labels: seq<Label>)
    ensures labels != [] && Join(labels) == s
    ensures forall l :: l in labels ==> DOT !in l
  {
    if s == [] then [[]]
    else
      var rest := Split(s[1..]);
      if s[0] == DOT then
        assert ([[]] + rest)[1..] == rest;
        [[]] + rest
      else
        var labels := [[s[0]] + rest[0]] + rest[1..];
        assert labels[1..] == rest[1..];
        assert s == [s[0]] + s[1..];
        labels
  }

  /** The pieces hold no byte 46, and byte 46 joins them to the whole text again. */
  lemma SplitAtDots(s: bytes)
    ensures Join(Split(s)) == s
    ensures forall i, j :: 0 <= i < |Split(s)| && 0 <= j < |Split(s)[i]| ==> Split(s)[i][j] as int != 46
  {
    forall i | 0 <= i < |Split(s)|
      ensures DOT !in Split(s)[i]
    {
      assert Split(s)[i] in Split(s);
    }
  }

  /** The name part of `encodeDnsQuery`; a label too long for its length byte stops it. */
  method EncodeName(name: bytes) returns (r: Option<bytes>)
    ensures r.Some? <==> forall i :: 0 <= i < |Split(name)| ==> |Split(name)[i]| < 256
    ensures r.Some? ==> r.value == EncodeLabels(Split(name)) + [0]
  {
    hide Split, EncodeLabels;
    var labels := Split(name);
    var buffer: bytes := [];
    NothingEncoded();
    for i := 0 to |labels|
      invariant Encodable(labels[..i]) && buffer == EncodeLabels(labels[..i])
    {
      if |labels[i]| >= 0x100 {
        assert |Split(name)[i]| >= 256;
        return None;
      }
      assert labels[..i + 1] == labels[..i] + [labels[i]];
      EncodeSnoc(labels[..i], labels[i]);
      buffer := buffer + [|labels[i]| as byte];
      buffer := buffer + labels[i];
    }
    assert labels[..|labels|] == labels;
    return Some(buffer + [0]);
  }

  lemma NothingEncoded()
    ensures Encodable([]) && EncodeLabels([]) == []
  {
  }

  lemma {:induction false} EncodeSnoc(labels: seq<Label>, l: Label)
    requires Encodable(labels) && |l| < 0x100
    ensures Encodable(labels + [l]) && EncodeLabels(labels + [l]) == EncodeLabels(labels) + [|l| as byte] + l
    decreases |labels|
  {
    if labels == [] {
      assert (labels + [l])[1..] == [];
    } else {
      assert (labels + [l])[1..] == labels[1..] + [l];
      EncodeSnoc(labels[1..], l);
    }
  }

  /** Every encoded name is two bytes longer than its text, so the limit is one on the text. */
  lemma EncodedWithinLimitIff(name: bytes)
    requires Encodable(Split(name))
    ensures |EncodeLabels(Split(name)) + [0]| == |name| + 2
    ensures WithinLimit(Split(name)) <==> |name| <= 253
  {
    JoinLength(Split(name));
  }

  /** An empty or overlong label is misread: as an error, or as an earlier end of the name. */
  lemma {:induction false} BadLabelMisread(data: bytes, off: nat, labels: seq<Label>, jumps: nat)
    requires Encodable(labels) && !Proper(labels) && Has(data, off, EncodeLabels(labels) + [0])
    ensures Labels(data, off, jumps).Broken? || EndOffset(data, off) < off + |EncodeLabels(labels)| + 1
    decreases |labels|
  {
    hide Labels, EndOffset;
    var l, rest := labels[0], labels[1..];
    assert EncodeLabels(labels) + [0] == EncodeLabel(l) + (EncodeLabels(rest) + [0]);
    HasParts(data, off, EncodeLabel(l), EncodeLabels(rest) + [0]);
    if 1 <= |l| <= 63 {
      assert labels == [l] + rest;
      LengthHere(data, off, l);
      LengthByteCases(data, off, jumps);
      BadLabelMisread(data, off + 1 + |l|, rest, jumps);
    } else {
      assert data[off] == data[off..off + |EncodeLabel(l)|][0];
      LengthByteCases(data, off, jumps);
    }
  }

  /**
   * Encoding and parsing back, anywhere in a message: it gives the same name, and the offset
   * just past the terminating zero, exactly when every label has 1 to 63 bytes.
   */
  lemma EncodeParseRoundTrip(name: bytes, before: bytes, after: bytes)
    requires Encodable(Split(name))
    ensures var w := EncodeLabels(Split(name)) + [0];
            ParsedName(before + w + after, |before|) == Ok((name, |before| + |w|)) <==> Proper(Split(name))
  {
    var labels := Split(name);
    var w := EncodeLabels(labels) + [0];
    HasInTheMiddle(before, w, after);
    if Proper(labels) {
      LabelsThenZero(before + w + after, |before|, labels, MAX_JUMPS);
    } else {
      BadLabelMisread(before + w + after, |before|, labels, MAX_JUMPS);
    }
  }

  /** For one, the empty name: one empty label, two zero bytes, of which the parser takes one. */
  lemma EmptyNameMisread(before: bytes, after: bytes)
    ensures Split([]) == [[]] && EncodeLabels(Split([])) + [0] == [0, 0]
    ensures ParsedName(before + [0, 0] + after, |before|) == Ok(([], |before| + 1))
  {
    var data := before + [0, 0] + after;
    assert data[|before|] == 0;
    assert EncodeLabels([[]]) == [0] by {
      var one: seq<Label> := [[]];
      assert one[1..] == [];
    }
  }

  lemma HasInTheMiddle(before: bytes, w: bytes, after: bytes)
    ensures Has(before + w + after, |before|, w)
  {
    assert (before + w + after)[|before|..|before| + |w|] == w;
  }
}
