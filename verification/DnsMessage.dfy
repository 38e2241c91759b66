/**
  DNS wire format: name decompression with a jump budget, query parsing and error
  responses (RFC 1035 sections 4.1.1 to 4.1.4).
 */
module DnsMessage {
  import opened Bytes

  datatype DnsError = PacketTooShort | InvalidQName | PointerLoop
  datatype Result<+T> = Ok(value: T) | Err(error: DnsError)

  type Label = seq<byte>

  const MAX_JUMPS := 10

  function IsPointer(b: byte): bool { b >= 0xC0 }

  function Pointer(data: seq<byte>, pos: nat): nat
    requires pos + 2 <= |data|
  {
    U16(data, pos) % 0x4000
  }

  // ---- The name relations

  /**
    `labels` is what can be read at `pos` through `jumps` compression pointers, when
    every length byte below 0xC0 starts a label and pointers may go anywhere.
   */
  ghost predicate NameAt(data: seq<byte>, pos: nat, labels: seq<Label>, jumps: nat)
    decreases jumps, |data| - pos
  {
    && pos < |data|
    && var b := data[pos];
    if b == 0 then labels == [] && jumps == 0
    else if IsPointer(b) then
      pos + 2 <= |data| && jumps > 0 && NameAt(data, Pointer(data, pos), labels, jumps - 1)
    else
      && pos + 1 + b <= |data| && labels != [] && labels[0] == data[pos + 1..pos + 1 + b]
      && NameAt(data, pos + 1 + b, labels[1..], jumps)
  }

  const MAX_LABEL := 63
  const MAX_NAME := 255

  /**
    The names of RFC 1035 section 4.1.4: labels of at most 63 octets (0x40 to 0xBF are
    reserved length bytes), and pointers only to a prior position.
   */
  ghost predicate RfcNameAt(data: seq<byte>, pos: nat, labels: seq<Label>, jumps: nat)
    decreases jumps, |data| - pos
  {
    && pos < |data|
    && var b := data[pos];
    if b == 0 then labels == [] && jumps == 0
    else if IsPointer(b) then
      pos + 2 <= |data| && jumps > 0 && Pointer(data, pos) < pos && RfcNameAt(data, Pointer(data, pos), labels, jumps - 1)
    else
      && b <= MAX_LABEL && pos + 1 + b <= |data| && labels != [] && labels[0] == data[pos + 1..pos + 1 + b]
      && RfcNameAt(data, pos + 1 + b, labels[1..], jumps)
  }

  /** The octets that the labels take uncompressed; RFC 1035 section 2.3.4 allows 255. */
  function WireLength(labels: seq<Label>): nat
  {
    if labels == [] then 1 else 1 + |labels[0]| + WireLength(labels[1..])
  }

  ghost predicate RfcName(data: seq<byte>, pos: nat, labels: seq<Label>, jumps: nat)
  {
    RfcNameAt(data, pos, labels, jumps) && WireLength(labels) <= MAX_NAME
  }

  // ---- The parser

  function Cons(l: Label, r: Result<seq<Label>>): Result<seq<Label>>
  {
    if r.Ok? then Ok([l] + r.value) else r
  }

  /** The labels read from `pos` with `budget` jumps left. */
  function WalkFrom(data: seq<byte>, pos: nat, budget: nat): Result<seq<Label>>
    decreases budget, |data| - pos
  {
    if pos >= |data| then Err(PacketTooShort)
    else if data[pos] == 0 then Ok([])
    else if IsPointer(data[pos]) then
      if pos + 2 > |data| then Err(PacketTooShort)
      else if Pointer(data, pos) >= |data| then Err(InvalidQName)
      else if budget == 0 then Err(PointerLoop)
      else WalkFrom(data, Pointer(data, pos), budget - 1)
    else
      var next := pos + 1 + data[pos];
      if next > |data| then Err(PacketTooShort)
      else Cons(data[pos + 1..next], WalkFrom(data, next, budget))
  }

  /** Where the part of a name that stands at `pos` itself ends; also the loop that skips a question name. */
  function NameEnd(data: seq<byte>, pos: nat): nat
    decreases |data| - pos
  {
    if pos >= |data| then pos
    else if data[pos] == 0 then pos + 1
    else if IsPointer(data[pos]) then pos + 2
    else NameEnd(data, pos + 1 + data[pos])
  }

  function LowerByte(b: byte): byte { if 65 <= b <= 90 then b + 32 else b }

  function Lower(s: seq<byte>): seq<byte> { seq(|s|, i requires 0 <= i < |s| => LowerByte(s[i])) }

  function Join(labels: seq<Label>): seq<byte>
  {
    if labels == [] then [] else if |labels| == 1 then labels[0] else labels[0] + [46] + Join(labels[1..])
  }

  datatype Name = Name(text: seq<byte>, end: nat)

  function NameOf(data: seq<byte>, offset: nat): Result<Name>
  {
    var w := WalkFrom(data, offset, MAX_JUMPS);
    if w.Ok? then Ok(Name(Lower(Join(w.value)), NameEnd(data, offset))) else Err(w.error)
  }

  /** What the loop has collected so far, in front of what is left to read. */
  function Resume(labels: seq<Label>, rest: Result<seq<Label>>): Result<seq<Label>>
  {
    if rest.Ok? then Ok(labels + rest.value) else rest
  }

  lemma ResumeEnds(labels: seq<Label>, rest: Result<seq<Label>>)
    ensures Resume([], rest) == rest && Resume(labels, Ok([])) == Ok(labels)
  {
    if rest.Ok? { assert [] + rest.value == rest.value; }
    assert labels + [] == labels;
  }

  lemma ResumeStep(labels: seq<Label>, l: Label, rest: Result<seq<Label>>)
    ensures Resume(labels, Cons(l, rest)) == Resume(labels + [l], rest)
  {
    if rest.Ok? { assert labels + ([l] + rest.value) == labels + [l] + rest.value; }
  }

  method ParseDomainName(data: seq<byte>, offset: nat) returns (r: Result<Name>)
    ensures r == NameOf(data, offset)
    ensures r.Ok? ==> offset < r.value.end <= |data|
  {
    EndAfterStart(data, offset, MAX_JUMPS);
    hide Join, Resume;
    if offset >= |data| {
      return Err(PacketTooShort);
    }
    var labels: seq<Label> := [];
    ResumeEnds(labels, WalkFrom(data, offset, MAX_JUMPS));
    var curr, jumped, jumps, retOffset := offset, false, 0, offset;
    while true
      invariant 0 <= curr && 0 <= jumps <= MAX_JUMPS
      invariant WalkFrom(data, offset, MAX_JUMPS) == Resume(labels, WalkFrom(data, curr, MAX_JUMPS - jumps))
      invariant NameEnd(data, offset) == if jumped then retOffset else NameEnd(data, curr)
      decreases MAX_JUMPS - jumps, |data| - curr
    {
      if curr >= |data| {
        return Err(PacketTooShort);
      }
      var length: int := data[curr];
      if length == 0 {
        if !jumped {
          retOffset := curr + 1;
        }
        ResumeEnds(labels, Ok([]));
        break;
      }
      if IsPointer(length) {
        if curr + 1 >= |data| {
          return Err(PacketTooShort);
        }
        if !jumped {
          retOffset := curr + 2;
          jumped := true;
        }
        var pointer := Pointer(data, curr);
        if pointer >= |data| {
          return Err(InvalidQName);
        }
        if jumps + 1 > MAX_JUMPS {
          return Err(PointerLoop);
        }
        curr := pointer;
        jumps := jumps + 1;
      } else {
        if curr + 1 + length > |data| {
          return Err(PacketTooShort);
        }
        var text := data[curr + 1..curr + 1 + length];
        ResumeStep(labels, text, WalkFrom(data, curr + 1 + length, MAX_JUMPS - jumps));
        labels := labels + [text];
        curr := curr + 1 + length;
      }
    }
    r := Ok(Name(Lower(Join(labels)), retOffset));
  }

  lemma {:induction false} EndAfterStart(data: seq<byte>, pos: nat, budget: nat)
    ensures WalkFrom(data, pos, budget).Ok? ==> pos < NameEnd(data, pos) <= |data|
    decreases |data| - pos
  {
    if pos < |data| && data[pos] != 0 && !IsPointer(data[pos]) && pos + 1 + data[pos] <= |data| {
      EndAfterStart(data, pos + 1 + data[pos], budget);
    }
  }

  // ---- The parser decides the relation

  lemma {:induction false} WalkSound(data: seq<byte>, pos: nat, budget: nat) returns (jumps: nat)
    requires WalkFrom(data, pos, budget).Ok?
    ensures jumps <= budget && NameAt(data, pos, WalkFrom(data, pos, budget).value, jumps)
    decreases budget, |data| - pos
  {
    var b := data[pos];
    if b == 0 {
      jumps := 0;
    } else if IsPointer(b) {
      jumps := WalkSound(data, Pointer(data, pos), budget - 1);
      jumps := jumps + 1;
    } else {
      jumps := WalkSound(data, pos + 1 + b, budget);
      var labels := WalkFrom(data, pos, budget).value;
      assert labels[1..] == WalkFrom(data, pos + 1 + b, budget).value;
    }
  }

  lemma {:induction false} WalkComplete(data: seq<byte>, pos: nat, labels: seq<Label>, jumps: nat, budget: nat)
    requires NameAt(data, pos, labels, jumps) && jumps <= budget
    ensures WalkFrom(data, pos, budget) == Ok(labels)
    decreases budget, |data| - pos
  {
    var b := data[pos];
    if b == 0 {
    } else if IsPointer(b) {
      WalkComplete(data, Pointer(data, pos), labels, jumps - 1, budget - 1);
    } else {
      WalkComplete(data, pos + 1 + b, labels[1..], jumps, budget);
      assert labels == [labels[0]] + labels[1..];
    }
  }

  /**
    The parser succeeds at `offset` with the text of `labels` if and only if `labels`
    can be read there through at most ten pointers.
   */
  lemma ParserDecidesNames(data: seq<byte>, offset: nat, labels: seq<Label>)
    ensures WalkFrom(data, offset, MAX_JUMPS) == Ok(labels)
            <==> exists jumps: nat :: jumps <= 10 && NameAt(data, offset, labels, jumps)
  {
    if WalkFrom(data, offset, MAX_JUMPS) == Ok(labels) {
      var jumps := WalkSound(data, offset, MAX_JUMPS);
      assert jumps <= MAX_JUMPS && NameAt(data, offset, labels, jumps);
    }
    if jumps: nat :| jumps <= MAX_JUMPS && NameAt(data, offset, labels, jumps) {
      WalkComplete(data, offset, labels, jumps, MAX_JUMPS);
      assert exists j: nat :: j <= MAX_JUMPS && NameAt(data, offset, labels, j);
    }
  }

  // ---- Which accepted names are RFC names

  /** The positions of the length bytes that the parser reads. */
  ghost function LengthBytes(data: seq<byte>, pos: nat, budget: nat): set<nat>
    decreases budget, |data| - pos
  {
    if pos >= |data| then {}
    else if data[pos] == 0 then {pos}
    else if IsPointer(data[pos]) then
      {pos} + if pos + 2 > |data| || budget == 0 then {} else LengthBytes(data, Pointer(data, pos), budget - 1)
    else {pos} + LengthBytes(data, pos + 1 + data[pos], budget)
  }

  /** The length byte at `q` is not reserved, and if it is a pointer, it goes back. */
  predicate Standard(data: seq<byte>, q: nat)
  {
    && q < |data|
    && !(MAX_LABEL < data[q] < 0xC0)
    && (IsPointer(data[q]) && q + 2 <= |data| ==> Pointer(data, q) < q)
  }

  ghost predicate AllStandard(data: seq<byte>, pos: nat, budget: nat)
  {
    forall q :: q in LengthBytes(data, pos, budget) ==> Standard(data, q)
  }

  /** One length byte, then the rest of the reading. */
  lemma StandardStep(data: seq<byte>, pos: nat, budget: nat)
    requires pos < |data| && data[pos] != 0
    ensures IsPointer(data[pos]) && pos + 2 <= |data| && budget > 0 ==>
              (AllStandard(data, pos, budget)
               <==> Standard(data, pos) && AllStandard(data, Pointer(data, pos), budget - 1))
    ensures !IsPointer(data[pos]) ==>
              (AllStandard(data, pos, budget) <==> Standard(data, pos) && AllStandard(data, pos + 1 + data[pos], budget))
  {
    hide Standard;
  }

  lemma {:induction false} ReadingIsRfc(data: seq<byte>, pos: nat, labels: seq<Label>, jumps: nat, budget: nat)
    requires NameAt(data, pos, labels, jumps) && jumps <= budget
    ensures RfcNameAt(data, pos, labels, jumps) <==> AllStandard(data, pos, budget)
    decreases budget, |data| - pos
  {
    var b := data[pos];
    if b != 0 {
      StandardStep(data, pos, budget);
      hide AllStandard;
      if IsPointer(b) {
        ReadingIsRfc(data, Pointer(data, pos), labels, jumps - 1, budget - 1);
      } else {
        ReadingIsRfc(data, pos + 1 + b, labels[1..], jumps, budget);
      }
    }
  }

  lemma {:induction false} RfcIsReading(data: seq<byte>, pos: nat, labels: seq<Label>, jumps: nat)
    requires RfcNameAt(data, pos, labels, jumps)
    ensures NameAt(data, pos, labels, jumps)
    decreases jumps, |data| - pos
  {
    var b := data[pos];
    if b != 0 {
      if IsPointer(b) {
        RfcIsReading(data, Pointer(data, pos), labels, jumps - 1);
      } else {
        RfcIsReading(data, pos + 1 + b, labels[1..], jumps);
      }
    }
  }

  /** The bytes determine how many pointers a reading takes. */
  lemma {:induction false} OneReading(data: seq<byte>, pos: nat, l: seq<Label>, j: nat, l': seq<Label>, j': nat)
    requires NameAt(data, pos, l, j) && NameAt(data, pos, l', j')
    ensures j == j'
    decreases j, |data| - pos
  {
    var b := data[pos];
    if b != 0 {
      if IsPointer(b) {
        OneReading(data, Pointer(data, pos), l, j - 1, l', j' - 1);
      } else {
        OneReading(data, pos + 1 + b, l[1..], j, l'[1..], j');
      }
    }
  }

  /**
    Main result: a name that the parser accepts is an RFC name if and only if no
    length byte it read is reserved, no pointer it read goes forward or to itself, and
    the name is within 255 octets; and every RFC name of at most ten pointers is accepted.
   */
  lemma AcceptedNamesExact(data: seq<byte>, offset: nat, labels: seq<Label>)
    ensures WalkFrom(data, offset, MAX_JUMPS) == Ok(labels) ==>
              ((exists jumps: nat :: RfcName(data, offset, labels, jumps))
               <==> AllStandard(data, offset, MAX_JUMPS) && WireLength(labels) <= 255)
    ensures forall jumps: nat :: jumps <= 10 && RfcName(data, offset, labels, jumps) ==>
              WalkFrom(data, offset, MAX_JUMPS) == Ok(labels)
  {
    hide NameAt, RfcNameAt, WalkFrom, AllStandard, WireLength;
    if WalkFrom(data, offset, MAX_JUMPS) == Ok(labels) {
      var taken := WalkSound(data, offset, MAX_JUMPS);
      ReadingIsRfc(data, offset, labels, taken, MAX_JUMPS);
      assert RfcNameAt(data, offset, labels, taken) && WireLength(labels) <= MAX_NAME ==> RfcName(data, offset, labels, taken);
      forall jumps: nat | RfcName(data, offset, labels, jumps)
        ensures jumps == taken
      {
        RfcIsReading(data, offset, labels, jumps);
        OneReading(data, offset, labels, jumps, labels, taken);
      }
    }
    forall jumps: nat | jumps <= MAX_JUMPS && RfcName(data, offset, labels, jumps)
      ensures WalkFrom(data, offset, MAX_JUMPS) == Ok(labels)
    {
      RfcIsReading(data, offset, labels, jumps);
      WalkComplete(data, offset, labels, jumps, MAX_JUMPS);
    }
  }

  const LONG_LABEL: Label := seq(64, _ => 97)

  /** A reserved length byte: 0x40 is read as a label of 64 octets. */
  lemma ReservedLengthAccepted(jumps: nat)
    ensures var data := [0x40] + LONG_LABEL + [0];
            WalkFrom(data, 0, MAX_JUMPS) == Ok([LONG_LABEL]) && !RfcNameAt(data, 0, [LONG_LABEL], jumps)
  {
    var data: seq<byte> := [0x40] + LONG_LABEL + [0];
    assert data[0] == 0x40 && data[65] == 0 && data[1..65] == LONG_LABEL;
    assert WalkFrom(data, 65, MAX_JUMPS) == Ok([]);
    assert [LONG_LABEL] + [] == [LONG_LABEL];
  }

  /** A forward pointer: the name stands behind it. */
  lemma ForwardPointerAccepted(jumps: nat)
    ensures var data := [0xC0, 2, 1, 97, 0];
            WalkFrom(data, 0, MAX_JUMPS) == Ok([[97]]) && !RfcNameAt(data, 0, [[97]], jumps)
  {
    var data: seq<byte> := [0xC0, 2, 1, 97, 0];
    assert Pointer(data, 0) == 2 && data[3..4] == [97];
    assert WalkFrom(data, 4, 9) == Ok([]);
    assert [[97]] + [] == [[97]];
    assert WalkFrom(data, 2, 9) == Ok([[97]]);
  }

  // ---- Uncompressed names round-trip

  function EncodeName(labels: seq<Label>): seq<byte>
    requires forall i :: 0 <= i < |labels| ==> 0 < |labels[i]| <= 63
  {
    if labels == [] then [0] else [|labels[0]|] + labels[0] + EncodeName(labels[1..])
  }

  ghost predicate EncodedHere(data: seq<byte>, pos: nat, labels: seq<Label>)
    requires forall i :: 0 <= i < |labels| ==> 0 < |labels[i]| <= 63
  {
    pos + |EncodeName(labels)| <= |data| && data[pos..pos + |EncodeName(labels)|] == EncodeName(labels)
  }

  lemma EncodedHead(data: seq<byte>, pos: nat, labels: seq<Label>)
    requires labels != [] && forall i :: 0 <= i < |labels| ==> 0 < |labels[i]| <= 63
    requires EncodedHere(data, pos, labels)
    ensures var l := labels[0]; var next := pos + 1 + |l|;
            && next <= |data| && data[pos] == |l| && data[pos + 1..next] == l
            && EncodedHere(data, next, labels[1..])
            && |EncodeName(labels)| == 1 + |l| + |EncodeName(labels[1..])|
  {
    var l, rest := labels[0], EncodeName(labels[1..]);
    assert EncodeName(labels) == [|l|] + l + rest;
    hide EncodeName;
    HeadSlices(data, pos, l, rest);
  }

  lemma HeadSlices(data: seq<byte>, pos: nat, l: Label, rest: seq<byte>)
    requires |l| <= 63 && pos + 1 + |l| + |rest| <= |data|
    requires data[pos..pos + 1 + |l| + |rest|] == [|l|] + l + rest
    ensures data[pos] == |l| && data[pos + 1..pos + 1 + |l|] == l
    ensures data[pos + 1 + |l|..pos + 1 + |l| + |rest|] == rest
  {
    var n, next := 1 + |l| + |rest|, 1 + |l|;
    assert data[pos] == data[pos..pos + n][0];
    SliceOfSlice(data, pos, pos + n, 1, next);
    SliceOfSlice(data, pos, pos + n, next, n);
    EncodedParts(l, rest);
  }

  lemma EncodedParts(l: Label, rest: seq<byte>)
    requires |l| <= 63
    ensures var e := [|l|] + l + rest; e[0] == |l| && e[1..1 + |l|] == l && e[1 + |l|..|e|] == rest
  {
  }

  /** One label in front of a name. */
  lemma LabelStep(data: seq<byte>, pos: nat, labels: seq<Label>, jumps: nat)
    requires pos < |data| && 0 < data[pos] <= 63 && pos + 1 + data[pos] <= |data|
    requires labels != [] && labels[0] == data[pos + 1..pos + 1 + data[pos]]
    requires RfcNameAt(data, pos + 1 + data[pos], labels[1..], jumps)
    ensures RfcNameAt(data, pos, labels, jumps) && NameEnd(data, pos) == NameEnd(data, pos + 1 + data[pos])
  {
  }

  /** Main result: every encoded name is parsed back, to its end, whatever stands around it. */
  lemma {:induction false} EncodedNameAt(data: seq<byte>, pos: nat, labels: seq<Label>)
    requires forall i :: 0 <= i < |labels| ==> 0 < |labels[i]| <= 63
    requires EncodedHere(data, pos, labels)
    ensures RfcNameAt(data, pos, labels, 0) && NameEnd(data, pos) == pos + |EncodeName(labels)|
    decreases |labels|
  {
    if labels == [] {
      assert data[pos] == data[pos..pos + 1][0] == 0;
    } else {
      EncodedHead(data, pos, labels);
      hide RfcNameAt, NameEnd, EncodeName, EncodedHere;
      EncodedNameAt(data, pos + 1 + |labels[0]|, labels[1..]);
      LabelStep(data, pos, labels, 0);
    }
  }

  // ---- Queries

  datatype Header = Header(id: uint16, flags: uint16, qd: uint16, an: uint16, ns: uint16, ar: uint16)
  datatype Question = Question(name: seq<byte>, qtype: uint16, qclass: uint16)
  datatype Message = Message(header: Header, questions: seq<Question>)

  function HeaderOf(data: seq<byte>): Header
    requires |data| >= 12
  {
    Header(U16(data, 0), U16(data, 2), U16(data, 4), U16(data, 6), U16(data, 8), U16(data, 10))
  }

  /** The questions read from `offset` on, and where they end. */
  datatype Section = Section(questions: seq<Question>, end: nat)

  function Prepend(q: Question, rest: Result<Section>): Result<Section>
  {
    if rest.Ok? then Ok(Section([q] + rest.value.questions, rest.value.end)) else rest
  }

  function QuestionAt(data: seq<byte>, name: Name): Question
    requires name.end + 4 <= |data|
  {
    Question(name.text, U16(data, name.end), U16(data, name.end + 2))
  }

  function Questions(data: seq<byte>, offset: nat, n: nat): Result<Section>
    decreases n
  {
    if n == 0 then Ok(Section([], offset))
    else
      var name := NameOf(data, offset);
      if name.Err? then Err(name.error)
      else if name.value.end + 4 > |data| then Err(PacketTooShort)
      else Prepend(QuestionAt(data, name.value), Questions(data, name.value.end + 4, n - 1))
  }

  function QueryOf(data: seq<byte>): Result<Message>
  {
    if |data| < 12 then Err(PacketTooShort)
    else
      var s := Questions(data, 12, U16(data, 4));
      if s.Ok? then Ok(Message(HeaderOf(data), s.value.questions)) else Err(s.error)
  }

  function Append(qs: seq<Question>, rest: Result<Section>): Result<Section>
  {
    if rest.Ok? then Ok(Section(qs + rest.value.questions, rest.value.end)) else rest
  }

  lemma AppendStep(qs: seq<Question>, q: Question, rest: Result<Section>)
    ensures Append(qs, Prepend(q, rest)) == Append(qs + [q], rest)
  {
    if rest.Ok? { assert qs + ([q] + rest.value.questions) == qs + [q] + rest.value.questions; }
  }

  method ParseQuery(data: seq<byte>) returns (r: Result<Message>)
    ensures r == QueryOf(data)
  {
    hide NameOf;
    if |data| < 12 {
      return Err(PacketTooShort);
    }
    var header := HeaderOf(data);
    var questions: seq<Question> := [];
    var offset, i := 12, 0;
    ghost var whole := Questions(data, 12, header.qd);
    assert whole.Ok? ==> [] + whole.value.questions == whole.value.questions;
    while i < header.qd
      invariant 0 <= i <= header.qd && 0 <= offset
      invariant whole == Append(questions, Questions(data, offset, header.qd - i))
    {
      var name := ParseDomainName(data, offset);
      if name.Err? {
        return Err(name.error);
      }
      var e := name.value.end;
      if e + 4 > |data| {
        return Err(PacketTooShort);
      }
      var q := Question(name.value.text, U16(data, e), U16(data, e + 2));
      AppendStep(questions, q, Questions(data, e + 4, header.qd - i - 1));
      offset := e + 4;
      questions := questions + [q];
      i := i + 1;
    }
    assert questions + [] == questions;
    r := Ok(Message(header, questions));
  }

  // ---- Error responses

  /** The second walk over the question section, which only skips. */
  function SkipQuestions(data: seq<byte>, offset: nat, n: nat): nat
    decreases n
  {
    if n == 0 then offset else SkipQuestions(data, NameEnd(data, offset) + 4, n - 1)
  }

  /** Main result: the skipping walk ends exactly where the parser did, so the question section is echoed whole. */
  lemma {:induction false} SkipAgrees(data: seq<byte>, offset: nat, n: nat)
    requires Questions(data, offset, n).Ok?
    ensures SkipQuestions(data, offset, n) == Questions(data, offset, n).value.end
    ensures n > 0 ==> offset + 5 * n <= Questions(data, offset, n).value.end <= |data|
    decreases n
  {
    hide WalkFrom, NameEnd;
    if n > 0 {
      EndAfterStart(data, offset, MAX_JUMPS);
      SkipAgrees(data, NameEnd(data, offset) + 4, n - 1);
    }
  }

  /** `(0x8180 | rcode & 0x0F)` with the RD bit replaced by the query's. */
  function ErrorFlags(rd: nat, rcode: byte): uint16
    requires rd < 2
  {
    0x8080 + rcode % 16 + 0x100 * rd
  }

  function ErrorHeader(req: seq<byte>, rcode: byte, qd: uint16): (h: seq<byte>)
    requires |req| >= 12
    ensures |h| == 12
  {
    req[..2] + Be16(ErrorFlags(req[2] % 2, rcode)) + Be16(qd) + [0, 0, 0, 0, 0, 0]
  }

  function ErrorResponse(req: seq<byte>, rcode: byte): seq<byte>
  {
    if |req| < 12 then [0, 0, 0x81, 0x80 + rcode % 16, 0, 0, 0, 0, 0, 0, 0, 0]
    else
      var s := Questions(req, 12, U16(req, 4));
      if s.Ok? && U16(req, 4) > 0 && s.value.end <= |req| && 12 <= s.value.end
      then ErrorHeader(req, rcode, U16(req, 4)) + req[12..s.value.end]
      else ErrorHeader(req, rcode, 0)
  }

  method SkipName(req: seq<byte>, start: nat) returns (offset: nat)
    ensures offset == NameEnd(req, start)
  {
    offset := start;
    while offset < |req|
      invariant NameEnd(req, offset) == NameEnd(req, start)
      decreases |req| - offset
    {
      var l: int := req[offset];
      if l == 0 {
        return offset + 1;
      }
      if IsPointer(l) {
        return offset + 2;
      }
      offset := offset + 1 + l;
    }
  }

  /** How many bytes of question section the response echoes. */
  method QuestionLength(req: seq<byte>) returns (n: nat)
    requires |req| >= 12
    ensures ErrorQuestions(req, n)
  {
    n := 0;
    var msg := ParseQuery(req);
    if msg.Ok? && |msg.value.questions| > 0 {
      QuestionCount(req, 12, U16(req, 4));
      SkipAgrees(req, 12, U16(req, 4));
      var offset, i, qd := 12, 0, U16(req, 4);
      while i < qd
        invariant 0 <= i <= qd && 0 <= offset
        invariant SkipQuestions(req, 12, qd) == SkipQuestions(req, offset, qd - i)
      {
        offset := SkipName(req, offset);
        offset := offset + 4;
        i := i + 1;
      }
      if offset <= |req| {
        n := offset - 12;
      }
    } else if msg.Ok? {
      QuestionCount(req, 12, U16(req, 4));
    }
  }

  ghost predicate ErrorQuestions(req: seq<byte>, n: nat)
    requires |req| >= 12
  {
    var s := Questions(req, 12, U16(req, 4));
    if s.Ok? && U16(req, 4) > 0 then n > 0 && 12 + n == s.value.end <= |req| else n == 0
  }

  lemma {:induction false} QuestionCount(data: seq<byte>, offset: nat, n: nat)
    requires Questions(data, offset, n).Ok?
    ensures |Questions(data, offset, n).value.questions| == n
    decreases n
  {
    hide NameOf;
    if n > 0 { QuestionCount(data, NameOf(data, offset).value.end + 4, n - 1); }
  }

  method WriteErrorHeader(a: array<byte>, req: seq<byte>, rcode: byte, qd: uint16)
    requires |req| >= 12 && a.Length >= 12
    requires forall k :: 0 <= k < a.Length ==> a[k] == 0
    modifies a
    ensures a[..12] == ErrorHeader(req, rcode, qd)
  {
    CopyInto(a, 0, req[..2]);
    Write16(a, 2, ErrorFlags(req[2] % 2, rcode));
    if qd > 0 {
      Write16(a, 4, qd);
    }
  }

  method BuildErrorResponse(req: seq<byte>, rcode: byte) returns (r: seq<byte>)
    ensures r == ErrorResponse(req, rcode)
  {
    hide Questions, ErrorHeader;
    if |req| < 12 {
      var a := new byte[12](_ => 0);
      a[2] := 0x81;
      a[3] := 0x80 + rcode % 16;
      assert a[..] == ErrorResponse(req, rcode);
      return a[..];
    }
    var n := QuestionLength(req);
    var qd := if n > 0 then U16(req, 4) else 0;
    var a := new byte[12 + n](_ => 0);
    WriteErrorHeader(a, req, rcode, qd);
    if n > 0 {
      ghost var h := a[..12];
      CopyInto(a, 12, req[12..12 + n]);
      assert a[..12] == h && a[12..] == req[12..12 + n];
    }
    assert a[..] == a[..12] + a[12..];
    r := a[..];
  }

  // ---- The response parses back

  /** Every byte that reading the name at `pos` touches is in `keep`. */
  ghost predicate Inside(data: seq<byte>, pos: nat, keep: iset<nat>, budget: nat)
    decreases budget, |data| - pos
  {
    && pos < |data| && pos in keep
    && var b := data[pos];
    b == 0
    || (IsPointer(b) && pos + 2 <= |data| && pos + 1 in keep && budget > 0
        && Inside(data, Pointer(data, pos), keep, budget - 1))
    || (!IsPointer(b) && pos + 1 + b <= |data| && Holds(keep, pos + 1, pos + 1 + b)
        && Inside(data, pos + 1 + b, keep, budget))
  }

  ghost predicate Holds(keep: iset<nat>, lo: nat, hi: nat) { forall k: nat :: lo <= k < hi ==> k in keep }

  /** The positions at which `other` has the byte of `data`. */
  ghost function Same(data: seq<byte>, other: seq<byte>): iset<nat>
  {
    iset k: nat | k < |data| && k < |other| && other[k] == data[k]
  }

  lemma SameSlice(data: seq<byte>, other: seq<byte>, lo: nat, hi: nat)
    requires lo <= hi <= |data| && Holds(Same(data, other), lo, hi) && (lo < hi || hi <= |other|)
    ensures hi <= |other| && other[lo..hi] == data[lo..hi]
  {
    if lo < hi { assert hi - 1 in Same(data, other); }
    forall k | lo <= k < hi
      ensures other[k] == data[k]
    {
      assert k in Same(data, other);
    }
  }

  lemma {:induction false} WalkLocal(data: seq<byte>, other: seq<byte>, pos: nat, budget: nat)
    requires Inside(data, pos, Same(data, other), budget)
    ensures WalkFrom(other, pos, budget) == WalkFrom(data, pos, budget)
    ensures WalkFrom(data, pos, budget).Ok? && NameEnd(other, pos) == NameEnd(data, pos)
    decreases budget, |data| - pos
  {
    var b := data[pos];
    if b == 0 {
    } else if IsPointer(b) {
      assert Pointer(other, pos) == Pointer(data, pos);
      WalkLocal(data, other, Pointer(data, pos), budget - 1);
      assert Pointer(data, pos) in Same(data, other);
    } else {
      SameSlice(data, other, pos + 1, pos + 1 + b);
      WalkLocal(data, other, pos + 1 + b, budget);
    }
  }

  /** An uncompressed name touches only itself. */
  lemma {:induction false} UncompressedInside(data: seq<byte>, pos: nat, labels: seq<Label>, keep: iset<nat>, hi: nat, budget: nat)
    requires NameAt(data, pos, labels, 0) && NameEnd(data, pos) <= hi <= |data| && Holds(keep, pos, hi)
    ensures pos < NameEnd(data, pos) && Inside(data, pos, keep, budget)
    decreases |data| - pos
  {
    if data[pos] != 0 {
      UncompressedInside(data, pos + 1 + data[pos], labels[1..], keep, hi, budget);
    }
  }

  /** Reading the `n` names of the questions at `offset` touches only bytes in `keep`. */
  ghost predicate QuestionsInside(data: seq<byte>, offset: nat, n: nat, keep: iset<nat>)
    decreases n
  {
    n == 0 || (Inside(data, offset, keep, MAX_JUMPS) && QuestionsInside(data, NameEnd(data, offset) + 4, n - 1, keep))
  }

  lemma NameLocal(data: seq<byte>, other: seq<byte>, offset: nat)
    requires Inside(data, offset, Same(data, other), MAX_JUMPS)
    ensures NameOf(other, offset) == NameOf(data, offset) && NameOf(data, offset).Ok?
    ensures offset < NameEnd(data, offset)
  {
    hide Join, Lower;
    WalkLocal(data, other, offset, MAX_JUMPS);
    EndAfterStart(data, offset, MAX_JUMPS);
  }

  lemma SameQuestion(data: seq<byte>, other: seq<byte>, name: Name, name': Name)
    requires name.end + 4 <= |data| && Holds(Same(data, other), name.end, name.end + 4) && name'.end == name.end
    ensures name.end + 4 <= |other| && (QuestionAt(other, name') == QuestionAt(data, name) <==> name' == name)
  {
    var k := name.end;
    assert k in Same(data, other) && k + 1 in Same(data, other) && k + 2 in Same(data, other) && k + 3 in Same(data, other);
  }

  lemma QuestionsUnfold(data: seq<byte>, offset: nat, n: nat)
    requires n > 0 && NameOf(data, offset).Ok? && NameOf(data, offset).value.end + 4 <= |data|
    ensures var name := NameOf(data, offset).value;
            Questions(data, offset, n) == Prepend(QuestionAt(data, name), Questions(data, name.end + 4, n - 1))
  {
  }

  lemma FirstQuestion(data: seq<byte>, offset: nat, n: nat)
    requires n > 0 && Questions(data, offset, n).Ok?
    ensures NameOf(data, offset).Ok? && NameOf(data, offset).value.end == NameEnd(data, offset)
    ensures var e := NameEnd(data, offset);
            && Questions(data, e + 4, n - 1).Ok?
            && Questions(data, e + 4, n - 1).value.end == Questions(data, offset, n).value.end
            && e + 4 <= Questions(data, offset, n).value.end && e + 4 <= |data|
  {
    hide WalkFrom, NameEnd;
    SkipAgrees(data, NameEnd(data, offset) + 4, n - 1);
  }

  /** The `n` names from `offset` on read alike in `other`. */
  ghost predicate NamesAgree(data: seq<byte>, other: seq<byte>, offset: nat, n: nat)
    decreases n
  {
    n == 0
    || (NameOf(other, offset) == NameOf(data, offset) && NamesAgree(data, other, NameEnd(data, offset) + 4, n - 1))
  }

  lemma {:induction false} NamesLocal(data: seq<byte>, other: seq<byte>, offset: nat, n: nat)
    requires QuestionsInside(data, offset, n, Same(data, other))
    ensures NamesAgree(data, other, offset, n)
    decreases n
  {
    if n > 0 {
      hide Inside, NameEnd, NameOf, Same;
      NameLocal(data, other, offset);
      NamesLocal(data, other, NameEnd(data, offset) + 4, n - 1);
    }
  }

  /** Where a name ends depends only on its own bytes. */
  lemma {:induction false} EndSame(data: seq<byte>, other: seq<byte>, pos: nat, budget: nat)
    requires WalkFrom(data, pos, budget).Ok? && Holds(Same(data, other), pos, NameEnd(data, pos))
    ensures NameEnd(other, pos) == NameEnd(data, pos)
    decreases |data| - pos
  {
    EndAfterStart(data, pos, budget);
    assert pos in Same(data, other);
    if data[pos] != 0 && !IsPointer(data[pos]) {
      EndSame(data, other, pos + 1 + data[pos], budget);
    }
  }

  lemma PrependExact(q: Question, rest: Result<Section>, q': Question, rest': Result<Section>)
    requires rest.Ok?
    ensures Prepend(q', rest') == Prepend(q, rest) <==> q' == q && rest' == rest
  {
    if rest'.Ok? && Prepend(q', rest') == Prepend(q, rest) {
      var a, b := [q] + rest.value.questions, [q'] + rest'.value.questions;
      assert a[0] == q && b[0] == q' && a[1..] == rest.value.questions && b[1..] == rest'.value.questions;
    }
  }

  /** The first question reads alike exactly when its name does. */
  lemma FirstExact(data: seq<byte>, other: seq<byte>, offset: nat, n: nat, hi: nat)
    requires n > 0 && Holds(Same(data, other), offset, hi)
    requires Questions(data, offset, n).Ok? && Questions(data, offset, n).value.end <= hi
    ensures offset <= NameEnd(data, offset)
    ensures Questions(other, offset, n) == Questions(data, offset, n)
            <==> NameOf(other, offset) == NameOf(data, offset)
                 && Questions(other, NameEnd(data, offset) + 4, n - 1) == Questions(data, NameEnd(data, offset) + 4, n - 1)
  {
    hide Questions, NameOf, NameEnd, Same, Prepend, QuestionAt;
    FirstQuestion(data, offset, n);
    FirstEnds(data, other, offset, hi);
    var e, name := NameEnd(data, offset), NameOf(data, offset).value;
    QuestionsUnfold(data, offset, n);
    if NameOf(other, offset).Err? {
      BadName(other, offset, n);
    } else {
      var name' := NameOf(other, offset).value;
      SameQuestion(data, other, name, name');
      QuestionsUnfold(other, offset, n);
      PrependExact(QuestionAt(data, name), Questions(data, e + 4, n - 1), QuestionAt(other, name'), Questions(other, e + 4, n - 1));
    }
  }

  lemma BadName(data: seq<byte>, offset: nat, n: nat)
    requires n > 0 && NameOf(data, offset).Err?
    ensures Questions(data, offset, n).Err?
  {
  }

  lemma FirstEnds(data: seq<byte>, other: seq<byte>, offset: nat, hi: nat)
    requires NameOf(data, offset).Ok? && NameEnd(data, offset) <= hi && Holds(Same(data, other), offset, hi)
    ensures offset < NameEnd(data, offset) == NameEnd(other, offset)
    ensures NameOf(other, offset).Ok? ==> NameOf(other, offset).value.end == NameOf(data, offset).value.end
    ensures NameOf(data, offset).value.end == NameEnd(data, offset)
  {
    hide Lower, Join;
    EndAfterStart(data, offset, MAX_JUMPS);
    EndSame(data, other, offset, MAX_JUMPS);
  }

  /** Sections over the same bytes end at the same place. */
  lemma {:induction false} SkipSame(data: seq<byte>, other: seq<byte>, offset: nat, n: nat, hi: nat)
    requires Holds(Same(data, other), offset, hi)
    requires Questions(data, offset, n).Ok? && Questions(data, offset, n).value.end <= hi
    ensures SkipQuestions(other, offset, n) == SkipQuestions(data, offset, n)
    decreases n
  {
    if n > 0 {
      hide NameEnd, NameOf, Questions, Same;
      FirstQuestion(data, offset, n);
      FirstEnds(data, other, offset, hi);
      SkipSame(data, other, NameEnd(data, offset) + 4, n - 1, hi);
    }
  }

  /** A section whose own bytes are repeated reads alike if and only if its names do. */
  lemma {:induction false} QuestionsExact(data: seq<byte>, other: seq<byte>, offset: nat, n: nat, hi: nat)
    requires Holds(Same(data, other), offset, hi)
    requires Questions(data, offset, n).Ok? && Questions(data, offset, n).value.end <= hi
    ensures Questions(other, offset, n) == Questions(data, offset, n) <==> NamesAgree(data, other, offset, n)
    decreases n
  {
    if n > 0 {
      hide NameEnd, NameOf, Questions, Same;
      FirstQuestion(data, offset, n);
      FirstExact(data, other, offset, n, hi);
      QuestionsExact(data, other, NameEnd(data, offset) + 4, n - 1, hi);
    }
  }

  /**
    Main result: the error response parses back to the query's questions, with its
    ID and RD, QR set, the asked RCODE and no other records, if and only if each name
    reads in the response as in the query; and that is so when every byte that the
    names are read from is one that the response repeats.
   */
  lemma ErrorResponseReparses(req: seq<byte>, rcode: byte)
    requires |req| >= 12 && U16(req, 4) > 0 && Questions(req, 12, U16(req, 4)).Ok?
    ensures var n, resp := U16(req, 4), ErrorResponse(req, rcode);
            && (QueryOf(resp) == Ok(Message(Header(U16(req, 0), ErrorFlags(req[2] % 2, rcode), n, 0, 0, 0),
                                            Questions(req, 12, n).value.questions))
                <==> NamesAgree(req, resp, 12, n))
            && (QuestionsInside(req, 12, n, Same(req, resp)) ==> NamesAgree(req, resp, 12, n))
  {
    var qd, resp := U16(req, 4), ErrorResponse(req, rcode);
    SkipAgrees(req, 12, qd);
    var hi := Questions(req, 12, qd).value.end;
    RepeatedBytes(req, rcode);
    ResponseShape(req, rcode, hi);
    hide Questions, QuestionsInside, ErrorResponse, ErrorFlags, Same, NamesAgree;
    if QuestionsInside(req, 12, qd, Same(req, resp)) { NamesLocal(req, resp, 12, qd); }
    QuestionsExact(req, resp, 12, qd, hi);
    if Questions(resp, 12, qd).Ok? { SameSection(req, resp, qd, hi); }
  }

  lemma ResponseShape(req: seq<byte>, rcode: byte, hi: nat)
    requires |req| >= 12 && U16(req, 4) > 0 && Questions(req, 12, U16(req, 4)).Ok?
    requires hi == Questions(req, 12, U16(req, 4)).value.end && 12 <= hi <= |req|
    ensures var resp := ErrorResponse(req, rcode);
            && |resp| >= 12 && U16(resp, 4) == U16(req, 4)
            && HeaderOf(resp) == Header(U16(req, 0), ErrorFlags(req[2] % 2, rcode), U16(req, 4), 0, 0, 0)
  {
    hide Questions, ErrorHeader, ErrorFlags;
    ResponseHeader(req, rcode, U16(req, 4), req[12..hi]);
  }

  lemma SameSection(req: seq<byte>, resp: seq<byte>, n: nat, hi: nat)
    requires Holds(Same(req, resp), 12, hi) && Questions(req, 12, n).Ok? && Questions(req, 12, n).value.end == hi
    requires Questions(resp, 12, n).Ok?
    ensures Questions(resp, 12, n).value.end == hi
  {
    hide Questions, Same;
    SkipSame(req, resp, 12, n, hi);
    SkipAgrees(req, 12, n);
    SkipAgrees(resp, 12, n);
  }

  /** The response repeats the ID, the question count and the question section. */
  lemma RepeatedBytes(req: seq<byte>, rcode: byte)
    requires |req| >= 12 && U16(req, 4) > 0 && Questions(req, 12, U16(req, 4)).Ok?
    ensures var keep := Same(req, ErrorResponse(req, rcode));
            && Holds(keep, 0, 2) && Holds(keep, 4, 6)
            && Holds(keep, 12, Questions(req, 12, U16(req, 4)).value.end)
  {
    var qd := U16(req, 4);
    SkipAgrees(req, 12, qd);
    var hi := Questions(req, 12, qd).value.end;
    hide Questions, ErrorHeader, Same;
    EchoedBytes(ErrorHeader(req, rcode, qd), req, hi);
    RepeatedHeader(req, rcode, req[12..hi]);
  }

  lemma RepeatedHeader(req: seq<byte>, rcode: byte, rest: seq<byte>)
    requires |req| >= 12
    ensures var keep := Same(req, ErrorHeader(req, rcode, U16(req, 4)) + rest); Holds(keep, 0, 2) && Holds(keep, 4, 6)
  {
    hide ErrorFlags;
    var h := ErrorHeader(req, rcode, U16(req, 4));
    SplitBytes(req[4], req[5], U16(req, 4));
    assert h[0] == req[0] && h[1] == req[1];
    assert h[4] == Be16(U16(req, 4))[0] == req[4] && h[5] == Be16(U16(req, 4))[1] == req[5];
  }

  lemma EchoedBytes(h: seq<byte>, req: seq<byte>, hi: nat)
    requires |h| == 12 <= hi <= |req|
    ensures Holds(Same(req, h + req[12..hi]), 12, hi)
  {
  }

  lemma ResponseHeader(req: seq<byte>, rcode: byte, qd: uint16, rest: seq<byte>)
    requires |req| >= 12
    ensures HeaderOf(ErrorHeader(req, rcode, qd) + rest)
            == Header(U16(req, 0), ErrorFlags(req[2] % 2, rcode), qd, 0, 0, 0)
  {
    var h := ErrorHeader(req, rcode, qd);
    var f := ErrorFlags(req[2] % 2, rcode);
    assert h[0] == req[0] && h[1] == req[1] && h[2] == Be16(f)[0] && h[3] == Be16(f)[1];
    assert h[4] == Be16(qd)[0] && h[5] == Be16(qd)[1];
  }

  /** Too short a query still gets a header: a response to ID 0 with RD, RA, the asked RCODE and no records. */
  lemma ShortErrorResponse(req: seq<byte>, rcode: byte)
    requires |req| < 12
    ensures var r := ErrorResponse(req, rcode);
            |r| == 12 && HeaderOf(r) == Header(0, 0x8180 + rcode % 16, 0, 0, 0, 0)
  {
    var r := ErrorResponse(req, rcode);
    assert U16(r, 0) == 0 && U16(r, 2) == 0x8180 + rcode % 16 && U16(r, 4) == 0 && U16(r, 6) == 0;
    assert U16(r, 8) == 0 && U16(r, 10) == 0;
  }

  /** What the flag word says: a response, RD as asked, RA, and the code in the low four bits. */
  lemma ErrorFlagBits(rd: nat, rcode: byte)
    requires rd < 2
    ensures var f := ErrorFlags(rd, rcode);
            f / 0x8000 == 1 && (f / 0x100) % 2 == rd && (f / 0x80) % 2 == 1 && f % 16 == rcode % 16
  {
    var f := ErrorFlags(rd, rcode);
    assert f / 0x100 == 0x80 + rd;
    assert f / 0x80 == 2 * (0x80 + rd) + 1;
    assert f == 16 * (0x808 + 16 * rd) + rcode % 16;
  }

  ghost predicate PlainName(data: seq<byte>, offset: nat) { exists labels :: NameAt(data, offset, labels, 0) }

  lemma PlainInside(data: seq<byte>, offset: nat, keep: iset<nat>, hi: nat)
    requires PlainName(data, offset) && NameEnd(data, offset) <= hi <= |data| && Holds(keep, offset, hi)
    ensures offset < NameEnd(data, offset) && Inside(data, offset, keep, MAX_JUMPS)
  {
    hide NameAt, Inside, NameEnd;
    var labels :| NameAt(data, offset, labels, 0);
    UncompressedInside(data, offset, labels, keep, hi, MAX_JUMPS);
  }

  /** The `n` names from `offset` on are uncompressed. */
  ghost predicate Uncompressed(data: seq<byte>, offset: nat, n: nat)
    decreases n
  {
    n == 0 || (PlainName(data, offset) && Uncompressed(data, NameEnd(data, offset) + 4, n - 1))
  }

  /** Queries with uncompressed names, the usual ones, meet the condition of `ErrorResponseReparses`. */
  lemma {:induction false} UncompressedQueries(data: seq<byte>, offset: nat, n: nat, keep: iset<nat>)
    requires Uncompressed(data, offset, n) && Questions(data, offset, n).Ok?
    requires Questions(data, offset, n).value.end <= |data| && Holds(keep, offset, Questions(data, offset, n).value.end)
    ensures QuestionsInside(data, offset, n, keep)
    decreases n
  {
    if n > 0 {
      hide Inside, PlainName, NameEnd, Questions, NameOf;
      FirstQuestion(data, offset, n);
      PlainInside(data, offset, keep, Questions(data, offset, n).value.end);
      UncompressedQueries(data, NameEnd(data, offset) + 4, n - 1, keep);
    }
  }

  const HEADER_POINTER: seq<byte> := [0, 7, 1, 97, 0, 1, 0, 0, 0, 0, 0, 0, 0xC0, 2, 0, 1, 0, 1]

  const HEADER_POINTER_ECHO: seq<byte> := [0, 7, 0x81, 0x83, 0, 1, 0, 0, 0, 0, 0, 0, 0xC0, 2, 0, 1, 0, 1]

  lemma HeaderPointerAccepted()
    ensures Questions(HEADER_POINTER, 12, 1).Ok? && Questions(HEADER_POINTER, 12, 1).value.end == 18
  {
    hide Lower, Join;
    var q := HEADER_POINTER;
    assert Pointer(q, 12) == 2;
    assert WalkFrom(q, 4, 9) == Ok([]);
    assert WalkFrom(q, 2, 9).Ok?;
    assert NameEnd(q, 12) == 14;
    assert Questions(q, 18, 0).Ok?;
  }

  lemma HeaderPointerRefused()
    ensures Questions(HEADER_POINTER_ECHO, 12, 1).Err?
  {
    hide Lower, Join;
    var r := HEADER_POINTER_ECHO;
    assert Pointer(r, 12) == 2 && WalkFrom(r, 2, 9).Err?;
    assert WalkFrom(r, 12, MAX_JUMPS).Err?;
  }

  /** The condition is needed: a name that points into the header, which the response overwrites, is lost. */
  lemma HeaderPointerLost()
    ensures QueryOf(HEADER_POINTER).Ok? && QueryOf(ErrorResponse(HEADER_POINTER, 3)).Err?
  {
    HeaderPointerAccepted();
    HeaderPointerRefused();
    hide WalkFrom, NameEnd, Questions;
    var q := HEADER_POINTER;
    assert U16(q, 4) == 1 && q[2] % 2 == 1 && ErrorFlags(1, 3) == 0x8183;
    assert q[..2] == [0, 7] && Be16(0x8183) == [0x81, 0x83] && Be16(1) == [0, 1];
    assert q[12..18] == [0xC0, 2, 0, 1, 0, 1];
    assert ErrorResponse(q, 3) == ErrorHeader(q, 3, 1) + q[12..18] == HEADER_POINTER_ECHO;
    assert U16(HEADER_POINTER_ECHO, 4) == 1;
  }

  // ---- The smallest answer TTL

  function SkipSection(data: seq<byte>, offset: nat, n: nat): Result<nat>
    decreases n
  {
    if n == 0 || offset >= |data| then Ok(offset)
    else
      var name := NameOf(data, offset);
      if name.Err? then Err(name.error) else SkipSection(data, name.value.end + 4, n - 1)
  }

  /** The TTLs of the answer records that can be walked. */
  function AnswerTtls(data: seq<byte>, offset: nat, n: nat): seq<uint32>
    decreases n
  {
    if n == 0 || offset >= |data| then []
    else
      var name := NameOf(data, offset);
      if name.Err? || name.value.end + 10 > |data| then []
      else
        var e := name.value.end;
        [U32(data, e + 4)] + AnswerTtls(data, e + 10 + U16(data, e + 8), n - 1)
  }

  /** All answer TTLs of a response; none if the question section cannot be walked. */
  function TtlsOf(data: seq<byte>): seq<uint32>
  {
    if |data| < 12 || U16(data, 6) == 0 then []
    else
      var start := SkipSection(data, 12, U16(data, 4));
      if start.Ok? then AnswerTtls(data, start.value, U16(data, 6)) else []
  }

  const DAY := 86400

  /** The smallest positive TTL, at most a day; 0 and the largest 32-bit value count as absent. */
  ghost predicate IsMinTtl(ttls: seq<uint32>, default: uint32, r: uint32)
  {
    if forall i :: 0 <= i < |ttls| ==> ttls[i] == 0 || ttls[i] == 0xffff_ffff then r == default
    else exists i :: 0 <= i < |ttls| && 0 < ttls[i] && r == Min(ttls[i], DAY)
                     && forall j :: 0 <= j < |ttls| ==> ttls[j] == 0 || ttls[i] <= ttls[j]
  }

  method ExtractMinTTL(data: seq<byte>, default: uint32) returns (r: uint32)
    ensures IsMinTtl(TtlsOf(data), default, r)
  {
    hide NameOf;
    if |data| < 12 || U16(data, 6) == 0 {
      return default;
    }
    var qd, offset, i := U16(data, 4), 12, 0;
    while i < qd && offset < |data|
      invariant 0 <= i <= qd && 0 <= offset
      invariant SkipSection(data, 12, qd) == SkipSection(data, offset, qd - i)
    {
      var name := ParseDomainName(data, offset);
      if name.Err? {
        return default;
      }
      offset := name.value.end + 4;
      i := i + 1;
    }
    r := MinOfAnswers(data, offset, U16(data, 6), default);
  }

  /** The result never exceeds a positive TTL in the answer. */
  lemma MinTtlBounds(ttls: seq<uint32>, default: uint32, r: uint32, k: nat)
    requires IsMinTtl(ttls, default, r) && k < |ttls| && ttls[k] > 0
    ensures r <= ttls[k]
  {
  }

  /** What the loop has seen so far: the smallest TTL strictly between 0 and the start value, if any. */
  ghost predicate Seen(ttls: seq<uint32>, minTTL: uint32, found: bool)
  {
    && (forall i :: 0 <= i < |ttls| ==> ttls[i] == 0 || minTTL <= ttls[i])
    && (found <==> minTTL != 0xffff_ffff)
    && (found ==> 0 < minTTL && exists i :: 0 <= i < |ttls| && ttls[i] == minTTL)
  }

  lemma SeenNothing()
    ensures Seen([], 0xffff_ffff, false)
  {
  }

  lemma SeenStep(ttls: seq<uint32>, minTTL: uint32, found: bool, ttl: uint32)
    requires Seen(ttls, minTTL, found)
    ensures if 0 < ttl < minTTL then Seen(ttls + [ttl], ttl, true) else Seen(ttls + [ttl], minTTL, found)
  {
    assert (ttls + [ttl])[|ttls|] == ttl;
    if found {
      var i :| 0 <= i < |ttls| && ttls[i] == minTTL;
      assert (ttls + [ttl])[i] == minTTL;
    }
  }

  lemma SeenDone(ttls: seq<uint32>, minTTL: uint32, found: bool, default: uint32)
    requires Seen(ttls, minTTL, found)
    ensures IsMinTtl(ttls, default, if found then Min(minTTL, DAY) else default)
  {
  }

  lemma AnswerStep(data: seq<byte>, offset: nat, n: nat, seen: seq<uint32>)
    requires n > 0 && offset < |data| && NameOf(data, offset).Ok? && NameOf(data, offset).value.end + 10 <= |data|
    ensures var e := NameOf(data, offset).value.end;
            seen + AnswerTtls(data, offset, n)
            == (seen + [U32(data, e + 4)]) + AnswerTtls(data, e + 10 + U16(data, e + 8), n - 1)
  {
    hide NameOf, U32;
  }

  lemma AnswerEnd(data: seq<byte>, offset: nat, n: nat, seen: seq<uint32>)
    requires n == 0 || offset >= |data| || NameOf(data, offset).Err? || NameOf(data, offset).value.end + 10 > |data|
    ensures seen + AnswerTtls(data, offset, n) == seen
  {
    hide NameOf;
  }

  method MinOfAnswers(data: seq<byte>, start: nat, an: uint16, default: uint32) returns (r: uint32)
    ensures IsMinTtl(AnswerTtls(data, start, an), default, r)
  {
    hide NameOf, Seen, IsMinTtl, AnswerTtls;
    var minTTL: uint32, found, offset, i := 0xffff_ffff, false, start, 0;
    ghost var seen: seq<uint32> := [];
    SeenNothing();
    while i < an && offset < |data|
      invariant 0 <= i <= an && 0 <= offset
      invariant AnswerTtls(data, start, an) == seen + AnswerTtls(data, offset, an - i)
      invariant Seen(seen, minTTL, found)
    {
      var name := ParseDomainName(data, offset);
      if name.Err? {
        break;
      }
      var e := name.value.end;
      if e + 10 > |data| {
        break;
      }
      AnswerStep(data, offset, an - i, seen);
      var ttl := U32(data, e + 4);
      SeenStep(seen, minTTL, found, ttl);
      offset := e + 10 + U16(data, e + 8);
      if ttl > 0 && ttl < minTTL {
        minTTL := ttl;
        found := true;
      }
      seen := seen + [ttl];
      i := i + 1;
    }
    AnswerEnd(data, offset, an - i, seen);
    SeenDone(seen, minTTL, found, default);
    r := if found then Min(minTTL, DAY) else default;
  }
}
