/**
  DNS messages as they are written: an encoder of queries and responses (RFC 1035
  sections 4.1.1 to 4.1.4), and what the parser makes of what it writes.
 */
module DnsWire {
  import opened Bytes
  import M = DnsMessage

  type Label = M.Label

  ghost predicate ValidLabels(labels: seq<Label>) { forall i :: 0 <= i < |labels| ==> 0 < |labels[i]| <= 63 }

  // ---- The text of a name

  /** The text that the parser returns for a name. */
  function Text(labels: seq<Label>): seq<byte> { M.Lower(M.Join(labels)) }

  /** Where label `i` starts in the text: after the earlier labels and a separator for each. */
  function Start(labels: seq<Label>, i: nat): nat
    requires i <= |labels|
  {
    if i == 0 then 0 else Start(labels, i - 1) + |labels[i - 1]| + 1
  }

  lemma {:induction false} StartShift(labels: seq<Label>, i: nat)
    requires 0 < i <= |labels|
    ensures Start(labels, i) == |labels[0]| + 1 + Start(labels[1..], i - 1)
  {
    if i > 1 { StartShift(labels, i - 1); }
  }

  lemma {:induction false} JoinAt(labels: seq<Label>, i: nat, k: nat)
    requires i < |labels| && k < |labels[i]|
    ensures |M.Join(labels)| == Start(labels, |labels|) - 1
    ensures Start(labels, i) + |labels[i]| <= |M.Join(labels)|
    ensures M.Join(labels)[Start(labels, i) + k] == labels[i][k]
    ensures i > 0 ==> Start(labels, i) > 0 && M.Join(labels)[Start(labels, i) - 1] == 46
  {
    StartShift(labels, |labels|);
    if |labels| > 1 {
      var rest := labels[1..];
      assert M.Join(labels) == labels[0] + [46] + M.Join(rest);
      if i > 0 {
        StartShift(labels, i);
        JoinAt(rest, i - 1, k);
      } else {
        JoinLength(rest);
      }
    }
  }

  lemma {:induction false} JoinLength(labels: seq<Label>)
    requires labels != []
    ensures |M.Join(labels)| == Start(labels, |labels|) - 1
  {
    StartShift(labels, |labels|);
    if |labels| > 1 { JoinLength(labels[1..]); }
  }

  /**
    Main result: the text of a name holds its labels in order, each byte in lower case,
    with byte 46 before every label but the first, and nothing else.
   */
  lemma TextOfName(labels: seq<Label>, i: nat, k: nat)
    requires i < |labels| && k < |labels[i]|
    ensures var t, b := Text(labels), labels[i][k];
            && |t| == Start(labels, |labels|) - 1 && Start(labels, i) + |labels[i]| <= |t|
            && t[Start(labels, i) + k] == (if 65 <= b <= 90 then b + 32 else b)
            && (i > 0 ==> Start(labels, i) > 0 && t[Start(labels, i) - 1] == 46)
  {
    JoinAt(labels, i, k);
    hide M.Join, Start;
  }

  /** A text cut at its dots. */
  function Cut(t: seq<byte>): seq<seq<byte>>
  {
    if 46 !in t then [t] else [t[..FirstDot(t)]] + Cut(t[FirstDot(t) + 1..])
  }

  function FirstDot(t: seq<byte>): (i: nat)
    requires 46 in t
    ensures i < |t| && t[i] == 46 && 46 !in t[..i]
  {
    if t[0] == 46 then 0 else
      assert t == [t[0]] + t[1..];
      var i := 1 + FirstDot(t[1..]);
      assert t[..i] == [t[0]] + t[1..][..i - 1];
      i
  }

  function LowerAll(labels: seq<Label>): seq<seq<byte>>
  {
    seq(|labels|, i requires 0 <= i < |labels| => M.Lower(labels[i]))
  }

  ghost predicate DotFree(labels: seq<Label>) { forall i :: 0 <= i < |labels| ==> 46 !in labels[i] }

  lemma LowerDots(l: seq<byte>)
    ensures 46 in M.Lower(l) <==> 46 in l
  {
    forall i | 0 <= i < |l|
      ensures M.Lower(l)[i] == 46 <==> l[i] == 46
    {
    }
    if 46 in l {
      var i :| 0 <= i < |l| && l[i] == 46;
      assert M.Lower(l)[i] == 46;
    }
  }

  /** The first dot stands right behind a start without one. */
  lemma FirstDotAfter(a: seq<byte>, rest: seq<byte>)
    requires 46 !in a
    ensures 46 in a + [46] + rest && FirstDot(a + [46] + rest) == |a|
  {
    var t := a + [46] + rest;
    assert t[|a|] == 46;
    var i := FirstDot(t);
    assert forall k :: 0 <= k < |a| ==> t[k] == a[k];
    assert forall k :: 0 <= k < i ==> t[k] == t[..i][k];
  }

  lemma CutStep(a: seq<byte>, rest: seq<byte>)
    requires 46 !in a
    ensures Cut(a + [46] + rest) == [a] + Cut(rest)
  {
    var t := a + [46] + rest;
    FirstDotAfter(a, rest);
    hide FirstDot;
    assert t[..|a|] == a && t[|a| + 1..] == rest;
  }

  lemma TextStep(labels: seq<Label>)
    requires |labels| > 1
    ensures Text(labels) == M.Lower(labels[0]) + [46] + Text(labels[1..])
    ensures LowerAll(labels) == [M.Lower(labels[0])] + LowerAll(labels[1..])
  {
    var rest := M.Join(labels[1..]);
    assert M.Join(labels) == labels[0] + [46] + rest;
    hide M.Join;
  }

  /** Main result: cutting the text of a name whose labels hold no dot gives the labels back, in lower case. */
  lemma {:induction false} CutTextOfName(labels: seq<Label>)
    requires labels != [] && DotFree(labels)
    ensures Cut(Text(labels)) == LowerAll(labels)
  {
    LowerDots(labels[0]);
    if |labels| == 1 {
      assert Text(labels) == M.Lower(labels[0]);
      assert LowerAll(labels) == [M.Lower(labels[0])];
    } else {
      TextStep(labels);
      hide Text, Cut, LowerAll, M.Lower;
      CutStep(M.Lower(labels[0]), Text(labels[1..]));
      CutTextOfName(labels[1..]);
    }
  }

  /** Names whose labels hold no dot have the same text exactly when they are the same up to case. */
  lemma TextExact(labels: seq<Label>, labels': seq<Label>)
    requires ValidLabels(labels) && ValidLabels(labels') && DotFree(labels) && DotFree(labels')
    ensures Text(labels) == Text(labels') <==> LowerAll(labels) == LowerAll(labels')
  {
    if labels != [] { CutTextOfName(labels); TextOfName(labels, 0, 0); }
    if labels' != [] { CutTextOfName(labels'); TextOfName(labels', 0, 0); }
    if LowerAll(labels) == LowerAll(labels') { SameLower(labels, labels'); }
  }

  lemma {:induction false} SameLower(labels: seq<Label>, labels': seq<Label>)
    requires LowerAll(labels) == LowerAll(labels')
    ensures Text(labels) == Text(labels')
  {
    assert |labels| == |LowerAll(labels)| == |labels'|;
    if labels != [] {
      assert LowerAll(labels)[0] == LowerAll(labels')[0];
      assert LowerAll(labels[1..]) == LowerAll(labels)[1..] && LowerAll(labels'[1..]) == LowerAll(labels')[1..];
      SameLower(labels[1..], labels'[1..]);
      if |labels| > 1 {
        assert Text(labels) == M.Lower(labels[0]) + [46] + Text(labels[1..]);
        assert Text(labels') == M.Lower(labels'[0]) + [46] + Text(labels'[1..]);
      }
    }
  }

  /** A dot inside a label is lost in the text. */
  lemma DottedLabelCollides()
    ensures Text([[97, 46, 98]]) == Text([[97], [98]])
  {
    assert M.Join([[97], [98]]) == [97, 46, 98];
  }

  // ---- Bytes in place

  ghost predicate At(data: seq<byte>, pos: nat, s: seq<byte>)
  {
    pos + |s| <= |data| && data[pos..pos + |s|] == s
  }

  lemma AtSplit(data: seq<byte>, pos: nat, a: seq<byte>, b: seq<byte>)
    requires At(data, pos, a + b)
    ensures At(data, pos, a) && At(data, pos + |a|, b)
  {
    var n := |a + b|;
    SliceOfSlice(data, pos, pos + n, 0, |a|);
    SliceOfSlice(data, pos, pos + n, |a|, n);
    assert (a + b)[..|a|] == a && (a + b)[|a|..n] == b;
  }

  lemma WordAt(data: seq<byte>, pos: nat, v: uint16)
    requires At(data, pos, Be16(v))
    ensures U16(data, pos) == v
  {
    assert data[pos..pos + 2][0] == data[pos] && data[pos..pos + 2][1] == data[pos + 1];
  }

  /** A compression pointer to any position that 14 bits can name is read as that position. */
  lemma PointerRoundTrip(data: seq<byte>, pos: nat, at: nat)
    requires at < 0x4000 && At(data, pos, Be16(0xC000 + at))
    ensures M.IsPointer(data[pos]) && M.Pointer(data, pos) == at
  {
    WordAt(data, pos, 0xC000 + at);
    assert data[pos] == data[pos..pos + 2][0] == (0xC000 + at) / 0x100;
  }

  // ---- Questions

  datatype Asked = Asked(labels: seq<Label>, qtype: uint16, qclass: uint16)

  ghost predicate ValidAsked(qs: seq<Asked>) { forall i :: 0 <= i < |qs| ==> ValidLabels(qs[i].labels) }

  function EncodeAsked(q: Asked): seq<byte>
    requires ValidLabels(q.labels)
  {
    M.EncodeName(q.labels) + (Be16(q.qtype) + Be16(q.qclass))
  }

  function EncodeAll(qs: seq<Asked>): seq<byte>
    requires ValidAsked(qs)
  {
    if qs == [] then [] else EncodeAsked(qs[0]) + EncodeAll(qs[1..])
  }

  /** What the parser should make of the questions. */
  function Parsed(qs: seq<Asked>): seq<M.Question>
  {
    seq(|qs|, i requires 0 <= i < |qs| => M.Question(Text(qs[i].labels), qs[i].qtype, qs[i].qclass))
  }

  lemma NameParses(data: seq<byte>, pos: nat, labels: seq<Label>)
    requires ValidLabels(labels) && At(data, pos, M.EncodeName(labels))
    ensures M.NameOf(data, pos) == M.Ok(M.Name(Text(labels), pos + |M.EncodeName(labels)|))
    ensures pos < |data|
  {
    M.EncodedNameAt(data, pos, labels);
    hide M.EncodeName, M.Lower, M.Join;
    M.RfcIsReading(data, pos, labels, 0);
    M.WalkComplete(data, pos, labels, 0, M.MAX_JUMPS);
  }

  lemma AskedAt(data: seq<byte>, pos: nat, q: Asked)
    requires ValidLabels(q.labels) && At(data, pos, EncodeAsked(q))
    ensures var e := pos + |M.EncodeName(q.labels)|;
            && M.NameOf(data, pos) == M.Ok(M.Name(Text(q.labels), e)) && pos < |data|
            && e + 4 <= |data| && U16(data, e) == q.qtype && U16(data, e + 2) == q.qclass
            && |EncodeAsked(q)| == |M.EncodeName(q.labels)| + 4
  {
    hide M.EncodeName, M.NameOf;
    AtSplit(data, pos, M.EncodeName(q.labels), Be16(q.qtype) + Be16(q.qclass));
    NameParses(data, pos, q.labels);
    var e := pos + |M.EncodeName(q.labels)|;
    AtSplit(data, e, Be16(q.qtype), Be16(q.qclass));
    WordAt(data, e, q.qtype);
    WordAt(data, e + 2, q.qclass);
  }

  lemma FirstAsked(data: seq<byte>, pos: nat, q: Asked, n: nat, rest: M.Section)
    requires ValidLabels(q.labels) && At(data, pos, EncodeAsked(q))
    requires M.Questions(data, pos + |EncodeAsked(q)|, n) == M.Ok(rest)
    ensures M.Questions(data, pos, n + 1)
            == M.Ok(M.Section([M.Question(Text(q.labels), q.qtype, q.qclass)] + rest.questions, rest.end))
  {
    hide EncodeAsked, M.NameOf, M.EncodeName, M.Questions, At, Text, U16;
    AskedAt(data, pos, q);
    M.QuestionsUnfold(data, pos, n + 1);
  }

  lemma NoneParse(data: seq<byte>, pos: nat, qs: seq<Asked>)
    requires qs == []
    ensures EncodeAll(qs) == [] && M.Questions(data, pos, 0) == M.Ok(M.Section(Parsed(qs), pos))
  {
    assert Parsed(qs) == [];
  }

  lemma EncodeStep(qs: seq<Asked>)
    requires qs != [] && ValidAsked(qs)
    ensures EncodeAll(qs) == EncodeAsked(qs[0]) + EncodeAll(qs[1..])
    ensures |EncodeAll(qs)| == |EncodeAsked(qs[0])| + |EncodeAll(qs[1..])|
  {
    hide EncodeAsked;
  }

  lemma {:induction false} AllParse(data: seq<byte>, pos: nat, qs: seq<Asked>)
    requires ValidAsked(qs) && At(data, pos, EncodeAll(qs))
    ensures M.Questions(data, pos, |qs|) == M.Ok(M.Section(Parsed(qs), pos + |EncodeAll(qs)|))
    decreases |qs|
  {
    hide EncodeAsked, EncodeAll, M.Questions, Parsed, At, Text;
    if qs == [] {
      NoneParse(data, pos, qs);
    } else {
      var q, rest := qs[0], qs[1..];
      EncodeStep(qs);
      AtSplit(data, pos, EncodeAsked(q), EncodeAll(rest));
      var next := pos + |EncodeAsked(q)|;
      AllParse(data, next, rest);
      FirstAsked(data, pos, q, |rest|, M.Section(Parsed(rest), next + |EncodeAll(rest)|));
      ParsedStep(qs);
    }
  }

  lemma {:induction false} AllSkip(data: seq<byte>, pos: nat, qs: seq<Asked>)
    requires ValidAsked(qs) && At(data, pos, EncodeAll(qs))
    ensures M.SkipSection(data, pos, |qs|) == M.Ok(pos + |EncodeAll(qs)|)
    decreases |qs|
  {
    hide EncodeAsked, M.NameOf, M.EncodeName, At;
    if qs != [] {
      AtSplit(data, pos, EncodeAsked(qs[0]), EncodeAll(qs[1..]));
      AskedAt(data, pos, qs[0]);
      AllSkip(data, pos + |EncodeAsked(qs[0])|, qs[1..]);
    }
  }

  lemma ParsedStep(qs: seq<Asked>)
    requires qs != []
    ensures Parsed(qs) == [M.Question(Text(qs[0].labels), qs[0].qtype, qs[0].qclass)] + Parsed(qs[1..])
  {
    hide Text;
  }

  // ---- Queries

  function EncodeHeader(h: M.Header): (r: seq<byte>)
    ensures |r| == 12
  {
    Be16(h.id) + Be16(h.flags) + Be16(h.qd) + Be16(h.an) + Be16(h.ns) + Be16(h.ar)
  }

  lemma HeaderParses(h: M.Header, rest: seq<byte>)
    ensures M.HeaderOf(EncodeHeader(h) + rest) == h
  {
    var e := EncodeHeader(h);
    assert e[0] == Be16(h.id)[0] && e[1] == Be16(h.id)[1] && e[2] == Be16(h.flags)[0] && e[3] == Be16(h.flags)[1];
    assert e[4] == Be16(h.qd)[0] && e[5] == Be16(h.qd)[1] && e[6] == Be16(h.an)[0] && e[7] == Be16(h.an)[1];
    assert e[8] == Be16(h.ns)[0] && e[9] == Be16(h.ns)[1] && e[10] == Be16(h.ar)[0] && e[11] == Be16(h.ar)[1];
  }

  ghost predicate ValidQuery(h: M.Header, qs: seq<Asked>) { h.qd == |qs| && ValidAsked(qs) }

  function EncodeQuery(h: M.Header, qs: seq<Asked>): seq<byte>
    requires ValidQuery(h, qs)
  {
    EncodeHeader(h) + EncodeAll(qs)
  }

  lemma Placed(a: seq<byte>, b: seq<byte>, tail: seq<byte>)
    ensures At(a + b + tail, |a|, b)
  {
  }

  /**
    Main result: every query that is encoded, with anything behind it, is parsed back: its
    header fields, and for every question its name in lower case, its type and its class.
   */
  lemma QueryRoundTrip(h: M.Header, qs: seq<Asked>, tail: seq<byte>)
    requires ValidQuery(h, qs)
    ensures M.QueryOf(EncodeQuery(h, qs) + tail) == M.Ok(M.Message(h, Parsed(qs)))
  {
    hide EncodeHeader, EncodeAll, M.HeaderOf, M.Questions, Parsed;
    var data := EncodeQuery(h, qs) + tail;
    Placed(EncodeHeader(h), EncodeAll(qs), tail);
    AllParse(data, 12, qs);
    assert data == EncodeHeader(h) + (EncodeAll(qs) + tail);
    HeaderParses(h, EncodeAll(qs) + tail);
    CountField(data);
  }

  lemma CountField(data: seq<byte>)
    requires |data| >= 12
    ensures U16(data, 4) == M.HeaderOf(data).qd && U16(data, 6) == M.HeaderOf(data).an
  {
  }

  // ---- Answers

  /** The owner name of a record: written out, or a pointer to the first question's name. */
  datatype Owner = Named(labels: seq<Label>) | Same

  datatype Answer = Answer(owner: Owner, rtype: uint16, rclass: uint16, ttl: uint32, rdata: seq<byte>)

  ghost predicate ValidAnswer(r: Answer)
  {
    (r.owner.Named? ==> ValidLabels(r.owner.labels)) && |r.rdata| < 0x1_0000
  }

  ghost predicate ValidAnswers(rs: seq<Answer>) { forall i :: 0 <= i < |rs| ==> ValidAnswer(rs[i]) }

  function EncodeOwner(o: Owner): seq<byte>
    requires o.Named? ==> ValidLabels(o.labels)
  {
    if o.Named? then M.EncodeName(o.labels) else [0xC0, 12]
  }

  function Fixed(r: Answer): (f: seq<byte>)
    requires |r.rdata| < 0x1_0000
    ensures |f| == 10
  {
    Be16(r.rtype) + Be16(r.rclass) + Be16(r.ttl / 0x1_0000) + Be16(r.ttl % 0x1_0000) + Be16(|r.rdata|)
  }

  function EncodeAnswer(r: Answer): seq<byte>
    requires ValidAnswer(r)
  {
    EncodeOwner(r.owner) + (Fixed(r) + r.rdata)
  }

  function EncodeAnswers(rs: seq<Answer>): seq<byte>
    requires ValidAnswers(rs)
  {
    if rs == [] then [] else EncodeAnswer(rs[0]) + EncodeAnswers(rs[1..])
  }

  function Ttls(rs: seq<Answer>): seq<uint32> { seq(|rs|, i requires 0 <= i < |rs| => rs[i].ttl) }

  /** The name at 12 is written out there, so pointers to it can be followed. */
  ghost predicate FirstNameAt(data: seq<byte>, labels: seq<Label>)
  {
    ValidLabels(labels) && At(data, 12, M.EncodeName(labels))
  }

  lemma OwnerParses(data: seq<byte>, pos: nat, o: Owner, first: seq<Label>)
    requires FirstNameAt(data, first) && (o.Named? ==> ValidLabels(o.labels)) && At(data, pos, EncodeOwner(o))
    ensures pos < |data| && M.NameOf(data, pos).Ok? && M.NameOf(data, pos).value.end == pos + |EncodeOwner(o)|
  {
    if o.Named? {
      NameParses(data, pos, o.labels);
    } else {
      assert data[pos] == data[pos..pos + 2][0] == 0xC0 && data[pos + 1] == data[pos..pos + 2][1] == 12;
      assert M.Pointer(data, pos) == 12;
      M.EncodedNameAt(data, 12, first);
      hide M.EncodeName;
      M.RfcIsReading(data, 12, first, 0);
      M.WalkComplete(data, 12, first, 0, 9);
      hide M.Lower, M.Join;
    }
  }

  lemma FixedAt(data: seq<byte>, e: nat, r: Answer)
    requires |r.rdata| < 0x1_0000 && At(data, e, Fixed(r))
    ensures e + 10 <= |data| && U32(data, e + 4) == r.ttl && U16(data, e + 8) == |r.rdata|
  {
    var f := Fixed(r);
    var d := data[e..e + 10];
    assert d == f;
    assert d[4] == data[e + 4] && d[5] == data[e + 5] && d[6] == data[e + 6] && d[7] == data[e + 7];
    assert d[8] == data[e + 8] && d[9] == data[e + 9];
    assert f[4] == Be16(r.ttl / 0x1_0000)[0] && f[5] == Be16(r.ttl / 0x1_0000)[1];
    assert f[6] == Be16(r.ttl % 0x1_0000)[0] && f[7] == Be16(r.ttl % 0x1_0000)[1];
    assert f[8] == Be16(|r.rdata|)[0] && f[9] == Be16(|r.rdata|)[1];
  }

  lemma AnswerAt(data: seq<byte>, pos: nat, r: Answer, first: seq<Label>)
    requires FirstNameAt(data, first) && ValidAnswer(r) && At(data, pos, EncodeAnswer(r))
    ensures pos < |data| && M.NameOf(data, pos).Ok?
    ensures var e := M.NameOf(data, pos).value.end;
            && e + 10 <= |data| && U32(data, e + 4) == r.ttl && e + 10 + U16(data, e + 8) == pos + |EncodeAnswer(r)|
  {
    hide FirstNameAt, EncodeOwner, Fixed, M.NameOf;
    AtSplit(data, pos, EncodeOwner(r.owner), Fixed(r) + r.rdata);
    OwnerParses(data, pos, r.owner, first);
    AtSplit(data, pos + |EncodeOwner(r.owner)|, Fixed(r), r.rdata);
    FixedAt(data, pos + |EncodeOwner(r.owner)|, r);
  }

  lemma {:induction false} AnswersParse(data: seq<byte>, pos: nat, rs: seq<Answer>, first: seq<Label>)
    requires FirstNameAt(data, first) && ValidAnswers(rs) && At(data, pos, EncodeAnswers(rs))
    ensures M.AnswerTtls(data, pos, |rs|) == Ttls(rs)
    decreases |rs|
  {
    hide FirstNameAt, EncodeAnswer, M.NameOf;
    if rs != [] {
      AtSplit(data, pos, EncodeAnswer(rs[0]), EncodeAnswers(rs[1..]));
      AnswerAt(data, pos, rs[0], first);
      AnswersParse(data, pos + |EncodeAnswer(rs[0])|, rs[1..], first);
      assert Ttls(rs) == [rs[0].ttl] + Ttls(rs[1..]);
    }
  }

  ghost predicate ValidResponse(h: M.Header, qs: seq<Asked>, rs: seq<Answer>)
  {
    qs != [] && ValidQuery(h, qs) && h.an == |rs| && ValidAnswers(rs)
  }

  function EncodeResponse(h: M.Header, qs: seq<Asked>, rs: seq<Answer>): seq<byte>
    requires ValidResponse(h, qs, rs)
  {
    EncodeQuery(h, qs) + EncodeAnswers(rs)
  }

  /** Main result: the TTLs that the cache goes by are those of the answer records, in order. */
  lemma TtlsRoundTrip(h: M.Header, qs: seq<Asked>, rs: seq<Answer>, tail: seq<byte>)
    requires ValidResponse(h, qs, rs)
    ensures M.TtlsOf(EncodeResponse(h, qs, rs) + tail) == Ttls(rs)
  {
    hide EncodeHeader, EncodeAll, EncodeAnswers, M.HeaderOf, M.AnswerTtls, M.SkipSection, Ttls;
    var q, a := EncodeQuery(h, qs), EncodeAnswers(rs);
    var data := EncodeResponse(h, qs, rs) + tail;
    Placed(q, a, tail);
    assert data == EncodeHeader(h) + EncodeAll(qs) + (a + tail);
    Placed(EncodeHeader(h), EncodeAll(qs), a + tail);
    FirstName(data, qs);
    AllSkip(data, 12, qs);
    AnswersParse(data, |q|, rs, qs[0].labels);
    assert data == EncodeHeader(h) + (EncodeAll(qs) + (a + tail));
    HeaderParses(h, EncodeAll(qs) + (a + tail));
    CountField(data);
    if rs == [] { NoTtls(); }
  }

  lemma NoTtls()
    ensures Ttls([]) == []
  {
  }

  lemma FirstName(data: seq<byte>, qs: seq<Asked>)
    requires qs != [] && ValidAsked(qs) && At(data, 12, EncodeAll(qs))
    ensures FirstNameAt(data, qs[0].labels)
  {
    hide M.EncodeName;
    AtSplit(data, 12, EncodeAsked(qs[0]), EncodeAll(qs[1..]));
    AtSplit(data, 12, M.EncodeName(qs[0].labels), Be16(qs[0].qtype) + Be16(qs[0].qclass));
  }
}
