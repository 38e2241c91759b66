/**
  The ClientHello walk that finds the server name, proved against an encoder of
  ClientHello messages (RFC 6066 section 3 for the server_name extension).
 */
module Sni {
  import opened Bytes

  /** `NoHello` is the source's early empty string; `Scan` hands over to its pattern scan. */
  datatype Found = Name(value: seq<byte>) | NoHello | Scan

  // ---- The walk

  /** The server_name list: entries from `pos` while they start before `limit`. */
  function NameWalk(d: seq<byte>, pos: nat, limit: nat): Option<seq<byte>>
    requires limit <= |d|
    decreases |d| - pos
  {
    if pos + 3 > limit then None
    else
      var next := pos + 3 + U16(d, pos + 1);
      if next > |d| then None
      else if d[pos] == 0 then Some(d[pos + 3..next])
      else NameWalk(d, next, limit)
  }

  function ServerName(d: seq<byte>): Option<seq<byte>>
    requires |d| >= 2
  {
    NameWalk(d, 2, 2 + Min(U16(d, 0), |d| - 2))
  }

  /** The extension list from its current position on. */
  function ExtWalk(x: seq<byte>): Option<seq<byte>>
  {
    if |x| < 4 then None
    else
      var next := 4 + U16(x, 2);
      if next > |x| then None
      else if U16(x, 0) != 0 then ExtWalk(x[next..])
      else if next < 6 then None
      else
        var name := ServerName(x[4..next]);
        if name.Some? then name else ExtWalk(x[next..])
  }

  function U24(b: seq<byte>, i: nat): nat
    requires i + 3 <= |b|
  {
    (b[i] as int) * 0x1_0000 + U16(b, i + 1)
  }

  /** The ClientHello body inside the record, as far as it is there. */
  function HelloBody(data: seq<byte>): Option<seq<byte>>
  {
    if |data| < 9 || data[0] != 0x16 then None
    else
      var payload := data[5..5 + Min(U16(data, 3), |data| - 5)];
      if |payload| < 4 || payload[0] != 1 then None
      else Some(payload[4..4 + Min(U24(payload, 1), |payload| - 4)])
  }

  /** The extension block of a ClientHello body, as far as it is there. */
  function ExtensionBlock(ch: seq<byte>): Option<seq<byte>>
  {
    if |ch| < 35 then None
    else
      var p1 := 35 + (ch[34] as int);
      if |ch| < p1 + 2 then None
      else
        var p2 := p1 + 2 + U16(ch, p1);
        if |ch| < p2 + 1 then None
        else
          var p3 := p2 + 1 + (ch[p2] as int);
          if |ch| < p3 + 2 then None
          else Some(ch[p3 + 2..p3 + 2 + Min(U16(ch, p3), |ch| - (p3 + 2))])
  }

  function Extract(data: seq<byte>): Found
  {
    match HelloBody(data)
    case None => NoHello
    case Some(ch) =>
      match ExtensionBlock(ch)
      case None => NoHello
      case Some(x) => if ExtWalk(x).Some? then Name(ExtWalk(x).value) else Scan
  }

  method FindName(d: seq<byte>) returns (r: Option<seq<byte>>)
    requires |d| >= 2
    ensures r == ServerName(d)
  {
    var limit := 2 + Min(U16(d, 0), |d| - 2);
    var pos := 2;
    while pos + 3 <= limit
      invariant 2 <= pos
      invariant NameWalk(d, pos, limit) == ServerName(d)
      decreases |d| - pos
    {
      var nameType, nameLen := d[pos], U16(d, pos + 1);
      if pos + 3 + nameLen > |d| {
        return None;
      }
      if nameType == 0 {
        return Some(d[pos + 3..pos + 3 + nameLen]);
      }
      pos := pos + 3 + nameLen;
    }
    r := None;
  }

  method FindExtension(x: seq<byte>) returns (r: Option<seq<byte>>)
    ensures r == ExtWalk(x)
  {
    hide ServerName;
    var pos := 0;
    while pos + 4 <= |x|
      invariant 0 <= pos <= |x|
      invariant ExtWalk(x[pos..]) == ExtWalk(x)
      decreases |x| - pos
    {
      ghost var y := x[pos..];
      var extType, extLen := U16(x, pos), U16(x, pos + 2);
      assert extType == U16(y, 0) && extLen == U16(y, 2);
      pos := pos + 4;
      if pos + extLen > |x| {
        return None;
      }
      assert y[4..4 + extLen] == x[pos..pos + extLen] && y[4 + extLen..] == x[pos + extLen..];
      if extType == 0 {
        if extLen < 2 {
          return None;
        }
        var name := FindName(x[pos..pos + extLen]);
        if name.Some? {
          return name;
        }
      }
      pos := pos + extLen;
    }
    r := None;
  }

  /** No access is out of range on any input: the verifier checks each index and slice. */
  method ExtractTLS_SNI(data: seq<byte>) returns (r: Found)
    ensures r == Extract(data)
  {
    var body := HelloBody(data);
    if body.None? {
      return NoHello;
    }
    var block := ExtensionBlock(body.value);
    if block.None? {
      return NoHello;
    }
    var name := FindExtension(block.value);
    r := if name.Some? then Name(name.value) else Scan;
  }

  // ---- An encoder of ClientHello records

  datatype Extension = Extension(typ: uint16, body: seq<byte>)

  ghost predicate ValidExt(e: Extension) { |e.body| < 0x1_0000 }

  function EncodeExt(e: Extension): (r: seq<byte>)
    requires ValidExt(e)
    ensures |r| == 4 + |e.body|
  {
    Be16(e.typ) + Be16(|e.body|) + e.body
  }

  function EncodeExts(es: seq<Extension>): seq<byte>
    requires forall i :: 0 <= i < |es| ==> ValidExt(es[i])
  {
    if es == [] then [] else EncodeExt(es[0]) + EncodeExts(es[1..])
  }

  /** An entry of a server_name list; type 0 is host_name. */
  datatype Entry = Entry(typ: byte, body: seq<byte>)

  ghost predicate ValidEntry(e: Entry) { |e.body| < 0x1_0000 && e.typ != 0 }

  function EncodeEntry(e: Entry): (r: seq<byte>)
    requires |e.body| < 0x1_0000
    ensures |r| == 3 + |e.body|
  {
    [e.typ] + Be16(|e.body|) + e.body
  }

  function EncodeEntries(es: seq<Entry>): seq<byte>
    requires forall i :: 0 <= i < |es| ==> ValidEntry(es[i])
  {
    if es == [] then [] else assert ValidEntry(es[0]); EncodeEntry(es[0]) + EncodeEntries(es[1..])
  }

  /** A server_name list: entries of other types, then the host_name `name`, then anything. */
  function ServerNames(earlier: seq<Entry>, name: seq<byte>, others: seq<byte>): (r: seq<byte>)
    requires forall i :: 0 <= i < |earlier| ==> ValidEntry(earlier[i])
    requires |name| < 0x1_0000 && |EncodeEntries(earlier)| + 3 + |name| + |others| < 0x1_0000
    ensures |r| == 2 + |EncodeEntries(earlier)| + 3 + |name| + |others|
  {
    Be16(|EncodeEntries(earlier)| + 3 + |name| + |others|) + (EncodeEntries(earlier) + (EncodeEntry(Entry(0, name)) + others))
  }

  /** A ClientHello: everything but the server name is arbitrary. */
  datatype Hello = Hello(recordVersion: seq<byte>, version: seq<byte>, random: seq<byte>, session: seq<byte>,
                         ciphers: seq<byte>, compression: seq<byte>, before: seq<Extension>, earlier: seq<Entry>, name: seq<byte>,
                         others: seq<byte>, after: seq<byte>)
  {
    ghost predicate Valid() {
      && |recordVersion| == 2 && |version| == 2 && |random| == 32 && |session| < 0x100 && |ciphers| < 0x1_0000 && |compression| < 0x100
      && (forall i :: 0 <= i < |before| ==> ValidExt(before[i]) && before[i].typ != 0)
      && NamesFit() && |Exts()| < 0x1_0000 && |Body()| < 0x1_0000 - 4
    }

    ghost predicate NamesFit() {
      && (forall i :: 0 <= i < |earlier| ==> ValidEntry(earlier[i]))
      && |name| < 0x1_0000 && |EncodeEntries(earlier)| + 5 + |name| + |others| < 0x1_0000
    }

    /** The extension list up to and including server_name. */
    function Named(): seq<byte>
      requires forall i :: 0 <= i < |before| ==> ValidExt(before[i])
      requires NamesFit()
    {
      EncodeExts(before) + EncodeExt(Extension(0, ServerNames(earlier, name, others)))
    }

    function Exts(): seq<byte>
      requires forall i :: 0 <= i < |before| ==> ValidExt(before[i])
      requires NamesFit()
    {
      Named() + after
    }

    /** The body up to the length field of the extension list. */
    function Prefix(): seq<byte>
      requires |session| < 0x100 && |ciphers| < 0x1_0000 && |compression| < 0x100
    {
      version + random + [|session|] + session + Be16(|ciphers|) + ciphers + [|compression|] + compression
    }

    function Body(): seq<byte>
      requires forall i :: 0 <= i < |before| ==> ValidExt(before[i])
      requires NamesFit()
      requires |session| < 0x100 && |ciphers| < 0x1_0000 && |compression| < 0x100 && |Exts()| < 0x1_0000
    {
      Prefix() + Be16(|Exts()|) + Exts()
    }

    /** The TLS record: type, version, length, handshake type and length, then the body. */
    function Record(): seq<byte>
      requires Valid()
    {
      [0x16] + recordVersion + Be16(4 + |Body()|) + [1, 0] + Be16(|Body()|) + Body()
    }

    /** Where the server_name extension ends in the record. */
    function End(): nat
      requires Valid()
    {
      9 + |Prefix()| + 2 + |Named()|
    }
  }

  // ---- Completeness

  lemma SkipExtension(e: Extension, rest: seq<byte>)
    requires ValidExt(e) && e.typ != 0
    ensures ExtWalk(EncodeExt(e) + rest) == ExtWalk(rest)
  {
    var x := EncodeExt(e) + rest;
    assert U16(x, 0) == e.typ && U16(x, 2) == |e.body|;
    assert x[4 + |e.body|..] == rest;
  }

  lemma {:induction false} SkipExtensions(es: seq<Extension>, rest: seq<byte>)
    requires forall i :: 0 <= i < |es| ==> ValidExt(es[i]) && es[i].typ != 0
    ensures ExtWalk(EncodeExts(es) + rest) == ExtWalk(rest)
  {
    hide ExtWalk;
    if es == [] {
      assert EncodeExts(es) + rest == rest;
    } else {
      assert EncodeExts(es) + rest == EncodeExt(es[0]) + (EncodeExts(es[1..]) + rest);
      SkipExtension(es[0], EncodeExts(es[1..]) + rest);
      SkipExtensions(es[1..], rest);
    }
  }

  /** One entry of another type is passed over. */
  lemma SkipEntry(d: seq<byte>, pos: nat, e: Entry, rest: seq<byte>)
    requires ValidEntry(e) && pos <= |d| && d[pos..] == EncodeEntry(e) + rest
    ensures NameWalk(d, pos, |d|) == NameWalk(d, pos + |EncodeEntry(e)|, |d|) && d[pos + |EncodeEntry(e)|..] == rest
  {
    var n := |EncodeEntry(e)|;
    assert |d| - pos == n + |rest|;
    var t := d[pos..];
    assert t[0] == d[pos] && t[1] == d[pos + 1] && t[2] == d[pos + 2];
    assert t[1] == Be16(|e.body|)[0] && t[2] == Be16(|e.body|)[1];
    assert d[pos + n..] == t[n..] == rest;
  }

  lemma {:induction false} SkipEntries(d: seq<byte>, pos: nat, es: seq<Entry>, rest: seq<byte>)
    requires forall i :: 0 <= i < |es| ==> ValidEntry(es[i])
    requires pos <= |d| && d[pos..] == EncodeEntries(es) + rest
    ensures NameWalk(d, pos, |d|) == NameWalk(d, pos + |EncodeEntries(es)|, |d|)
    ensures d[pos + |EncodeEntries(es)|..] == rest
    decreases |es|
  {
    hide NameWalk;
    if es == [] {
      assert EncodeEntries(es) + rest == rest;
    } else {
      assert ValidEntry(es[0]);
      var a, b := EncodeEntry(es[0]), EncodeEntries(es[1..]);
      hide EncodeEntry;
      assert (a + b) + rest == a + (b + rest);
      SkipEntry(d, pos, es[0], b + rest);
      SkipEntries(d, pos + |a|, es[1..], rest);
    }
  }

  lemma HostEntry(d: seq<byte>, pos: nat, name: seq<byte>, others: seq<byte>)
    requires |name| < 0x1_0000 && pos <= |d| && d[pos..] == EncodeEntry(Entry(0, name)) + others
    ensures NameWalk(d, pos, |d|) == Some(name)
  {
    var t := d[pos..];
    assert t[0] == d[pos] && t[1] == d[pos + 1] && t[2] == d[pos + 2];
    assert t[1] == Be16(|name|)[0] && t[2] == Be16(|name|)[1];
    assert d[pos + 3..pos + 3 + |name|] == t[3..3 + |name|] == name;
  }

  lemma ListShape(a: seq<byte>, b: seq<byte>, n: uint16)
    requires a == Be16(n)
    ensures U16(a + b, 0) == n && (a + b)[2..] == b
  {
  }

  lemma FirstName(earlier: seq<Entry>, name: seq<byte>, others: seq<byte>)
    requires forall i :: 0 <= i < |earlier| ==> ValidEntry(earlier[i])
    requires |name| < 0x1_0000 && |EncodeEntries(earlier)| + 5 + |name| + |others| < 0x1_0000
    ensures ServerName(ServerNames(earlier, name, others)) == Some(name)
  {
    hide EncodeEntries, EncodeEntry, NameWalk, U16;
    var rest := EncodeEntry(Entry(0, name)) + others;
    var n := |EncodeEntries(earlier)| + 3 + |name| + |others|;
    var d := ServerNames(earlier, name, others);
    ListShape(Be16(n), EncodeEntries(earlier) + rest, n);
    SkipEntries(d, 2, earlier, rest);
    HostEntry(d, 2 + |EncodeEntries(earlier)|, name, others);
  }

  /** A server_name extension too short for a list ends the walk, whatever follows. */
  lemma ShortServerNameEnds(before: seq<Extension>, d: seq<byte>, rest: seq<byte>)
    requires forall i :: 0 <= i < |before| ==> ValidExt(before[i]) && before[i].typ != 0
    requires |d| < 2
    ensures ExtWalk(EncodeExts(before) + (EncodeExt(Extension(0, d)) + rest)) == None
  {
    var x := EncodeExt(Extension(0, d)) + rest;
    SkipExtensions(before, x);
    assert U16(x, 0) == 0 && U16(x, 2) == |d|;
  }

  /** A server_name extension in front yields the name of its list. */
  lemma ServerNameExt(d: seq<byte>, tail: seq<byte>)
    requires 2 <= |d| < 0x1_0000 && ServerName(d).Some?
    ensures ExtWalk(EncodeExt(Extension(0, d)) + tail) == ServerName(d)
  {
    hide ServerName;
    var x := EncodeExt(Extension(0, d)) + tail;
    assert U16(x, 0) == 0 && U16(x, 2) == |d| && x[4..4 + |d|] == d;
  }

  lemma NameFound(h: Hello, tail: seq<byte>)
    requires h.Valid()
    ensures ExtWalk(h.Named() + tail) == Some(h.name)
  {
    hide EncodeEntries, EncodeExts, EncodeExt, ExtWalk, ServerName, h.Exts, h.Body, h.Prefix;
    var d := ServerNames(h.earlier, h.name, h.others);
    FirstName(h.earlier, h.name, h.others);
    hide ServerNames;
    ServerNameExt(d, tail);
    SkipExtensions(h.before, EncodeExt(Extension(0, d)) + tail);
    Regroup(EncodeExts(h.before), EncodeExt(Extension(0, d)), tail);
  }

  lemma Regroup(a: seq<byte>, b: seq<byte>, c: seq<byte>)
    ensures (a + b) + c == a + (b + c)
  {
  }

  lemma PrefixOffsets(h: Hello, tail: seq<byte>)
    requires h.Valid()
    ensures var ch := h.Prefix() + tail;
            var p1 := 35 + |h.session|;
            var p2 := p1 + 2 + |h.ciphers|;
            && |h.Prefix()| == p2 + 1 + |h.compression|
            && ch[34] == |h.session| && U16(ch, p1) == |h.ciphers| && ch[p2] == |h.compression|
  {
    var a := h.version + h.random;
    var b := a + [|h.session|] + h.session;
    var c := b + Be16(|h.ciphers|) + h.ciphers;
    assert h.Prefix() == c + [|h.compression|] + h.compression;
    var ch := h.Prefix() + tail;
    assert ch[34] == |h.session|;
    assert ch[|b|] == Be16(|h.ciphers|)[0] && ch[|b| + 1] == Be16(|h.ciphers|)[1];
    assert ch[|c|] == |h.compression|;
  }

  /** Where the block starts, and that it holds as much as there is of its announced length. */
  lemma BlockAt(ch: seq<byte>, p3: nat, n: uint16, named: seq<byte>)
    requires |ch| >= 35 && var p1 := 35 + (ch[34] as int);
             && p1 + 2 <= |ch| && var p2 := p1 + 2 + U16(ch, p1);
             p2 < |ch| && p3 == p2 + 1 + (ch[p2] as int)
    requires |named| <= n && p3 + 2 + |named| <= |ch| && U16(ch, p3) == n && ch[p3 + 2..p3 + 2 + |named|] == named
    ensures ExtensionBlock(ch).Some? && named <= ExtensionBlock(ch).value
  {
    var m := Min(n, |ch| - (p3 + 2));
    SliceOfSlice(ch, p3 + 2, p3 + 2 + m, 0, |named|);
  }

  lemma Sliced(a: seq<byte>, n: uint16, b: seq<byte>, ch: seq<byte>)
    requires a + Be16(n) + b <= ch
    ensures |a| + 2 + |b| <= |ch| && U16(ch, |a|) == n && ch[|a| + 2..|a| + 2 + |b|] == b && ch == a + ch[|a|..]
  {
    var w := a + Be16(n) + b;
    assert w[|a|] == Be16(n)[0] && w[|a| + 1] == Be16(n)[1];
    assert w[|a| + 2..] == b;
  }

  /** A body that is cut or followed by anything after server_name still yields the name. */
  lemma BlockFound(h: Hello, ch: seq<byte>)
    requires h.Valid() && h.Prefix() + Be16(|h.Exts()|) + h.Named() <= ch
    ensures ExtensionBlock(ch).Some? && h.Named() <= ExtensionBlock(ch).value
  {
    assert |h.Named()| <= |h.Exts()|;
    hide ExtensionBlock, h.Prefix, h.Named, h.Exts;
    Sliced(h.Prefix(), |h.Exts()|, h.Named(), ch);
    PrefixOffsets(h, ch[|h.Prefix()|..]);
    BlockAt(ch, |h.Prefix()|, |h.Exts()|, h.Named());
  }

  /** The record up to the end of server_name: nine bytes, then the start of the body. */
  lemma RecordStart(h: Hello)
    requires h.Valid()
    ensures var body, start := h.Body(), h.Prefix() + Be16(|h.Exts()|) + h.Named();
            && |start| == h.End() - 9 && |start| <= |body| < 0x1_0000 - 4
            && h.End() <= |h.Record()|
            && h.Record()[..h.End()] == [0x16] + h.recordVersion + Be16(4 + |body|) + [1, 0] + Be16(|body|) + start
  {
    var body, start := h.Body(), h.Prefix() + Be16(|h.Exts()|) + h.Named();
    assert body[..|start|] == start;
  }

  /** The extension walk meets the name whatever comes behind it. */
  lemma NameInBlock(h: Hello, x: seq<byte>)
    requires h.Valid() && h.Named() <= x
    ensures ExtWalk(x) == Some(h.name)
  {
    hide ExtWalk, h.Named;
    assert x == h.Named() + x[|h.Named()|..];
    NameFound(h, x[|h.Named()|..]);
  }

  /**
    Main result: whatever follows the server_name extension, and wherever the data
    ends after it, a record that starts like an encoded ClientHello yields its host name.
   */
  lemma ExtractFindsName(h: Hello, data: seq<byte>)
    requires h.Valid() && |data| >= h.End() && h.Record()[..h.End()] <= data
    ensures Extract(data) == Name(h.name)
  {
    RecordStart(h);
    hide HelloBody, ExtensionBlock, ExtWalk, h.Record, h.Body, h.Prefix, h.Named, h.Exts, h.Valid;
    var body := h.Body();
    var head := [0x16] + h.recordVersion + Be16(4 + |body|) + [1, 0] + Be16(|body|);
    var start := h.Prefix() + Be16(|h.Exts()|) + h.Named();
    HelloFound(head, h.recordVersion, start, body, data);
    BlockFound(h, HelloBody(data).value);
    NameInBlock(h, ExtensionBlock(HelloBody(data).value).value);
  }

  lemma HelloFound(head: seq<byte>, version: seq<byte>, start: seq<byte>, body: seq<byte>, data: seq<byte>)
    requires |version| == 2 && |start| <= |body| < 0x1_0000 - 4
    requires head == [0x16] + version + Be16(4 + |body|) + [1, 0] + Be16(|body|)
    requires head + start <= data
    ensures HelloBody(data).Some? && start <= HelloBody(data).value
  {
    var n := |body|;
    assert head[0] == 0x16 && head[3] == Be16(4 + n)[0] && head[4] == Be16(4 + n)[1];
    assert head[5] == 1 && head[6] == 0 && head[7] == Be16(n)[0] && head[8] == Be16(n)[1];
    assert forall k :: 0 <= k < 9 + |start| ==> data[k] == (head + start)[k];
    assert U16(data, 3) == 4 + n && data[5] == 1 && U24(data, 6) == n;
    BodyPlaced(data);
    hide HelloBody;
    assert data[9..HelloEnd(data)][..|start|] == start;
  }

  // ---- Soundness

  /** From `pos` on, `d` holds whole entries of other types and then the host_name entry `name`. */
  ghost predicate NamesAt(d: seq<byte>, pos: nat, others: seq<Entry>, name: seq<byte>)
  {
    && pos <= |d| && |name| < 0x1_0000 && (forall i :: 0 <= i < |others| ==> ValidEntry(others[i]))
    && EncodeEntries(others) + EncodeEntry(Entry(0, name)) <= d[pos..]
  }

  /** `name` is the first host_name entry of the server_name list `d`. */
  ghost predicate Lists(d: seq<byte>, name: seq<byte>) { exists others :: NamesAt(d, 2, others, name) }

  /** `x` starts with whole extensions and then the server_name extension `d`. */
  ghost predicate ExtensionsAt(x: seq<byte>, before: seq<Extension>, d: seq<byte>)
  {
    && |d| < 0x1_0000 && (forall i :: 0 <= i < |before| ==> ValidExt(before[i]))
    && EncodeExts(before) + EncodeExt(Extension(0, d)) <= x
  }

  /** `x` has a server_name extension, at a place where an extension starts, that lists `name`. */
  ghost predicate Carries(x: seq<byte>, name: seq<byte>)
  {
    exists before, d :: ExtensionsAt(x, before, d) && Lists(d, name)
  }

  /** An entry header and body are the encoded entry. */
  lemma EntryBytes(d: seq<byte>, pos: nat)
    requires pos + 3 <= |d| && pos + 3 + U16(d, pos + 1) <= |d|
    ensures var next := pos + 3 + U16(d, pos + 1); var e := Entry(d[pos], d[pos + 3..next]);
            |e.body| < 0x1_0000 && d[pos..] == EncodeEntry(e) + d[next..]
  {
    var next := pos + 3 + U16(d, pos + 1);
    SplitBytes(d[pos + 1], d[pos + 2], U16(d, pos + 1));
    var r := EncodeEntry(Entry(d[pos], d[pos + 3..next]));
    assert r[0] == d[pos] && r[1] == d[pos + 1] && r[2] == d[pos + 2] && r[3..] == d[pos + 3..next];
    assert d[pos..next] == r;
    assert d[pos..] == d[pos..next] + d[next..];
  }

  lemma PrefixUnder(a: seq<byte>, m: seq<byte>, z: seq<byte>, rest: seq<byte>)
    requires m + z <= rest
    ensures (a + m) + z <= a + rest
  {
    var b := m + z;
    assert rest == b + rest[|b|..];
    assert (a + m) + z == a + b;
    assert a + rest == (a + b) + rest[|b|..];
  }

  lemma EntriesStep(e: Entry, others: seq<Entry>, name: seq<byte>, rest: seq<byte>)
    requires ValidEntry(e) && |name| < 0x1_0000 && forall i :: 0 <= i < |others| ==> ValidEntry(others[i])
    requires EncodeEntries(others) + EncodeEntry(Entry(0, name)) <= rest
    ensures var all := [e] + others;
            && (forall i :: 0 <= i < |all| ==> ValidEntry(all[i]))
            && EncodeEntries(all) + EncodeEntry(Entry(0, name)) <= EncodeEntry(e) + rest
  {
    EntriesCons(e, others);
    hide EncodeEntry, EncodeEntries;
    PrefixUnder(EncodeEntry(e), EncodeEntries(others), EncodeEntry(Entry(0, name)), rest);
  }

  lemma EntriesCons(e: Entry, others: seq<Entry>)
    requires ValidEntry(e) && forall i :: 0 <= i < |others| ==> ValidEntry(others[i])
    ensures var all := [e] + others;
            && (forall i :: 0 <= i < |all| ==> ValidEntry(all[i]))
            && EncodeEntries(all) == EncodeEntry(e) + EncodeEntries(others)
  {
    hide EncodeEntry;
    assert ([e] + others)[1..] == others;
  }

  lemma {:induction false} NameWalkSound(d: seq<byte>, pos: nat, limit: nat) returns (others: seq<Entry>)
    requires limit <= |d| && NameWalk(d, pos, limit).Some?
    ensures NamesAt(d, pos, others, NameWalk(d, pos, limit).value)
    decreases |d| - pos
  {
    hide EncodeEntry;
    var next := pos + 3 + U16(d, pos + 1);
    EntryBytes(d, pos);
    if d[pos] == 0 {
      others := [];
      assert EncodeEntries(others) == [];
    } else {
      var rest := NameWalkSound(d, next, limit);
      others := [Entry(d[pos], d[pos + 3..next])] + rest;
      EntriesStep(others[0], rest, NameWalk(d, next, limit).value, d[next..]);
    }
  }

  lemma ExtensionBytes(x: seq<byte>)
    requires 4 <= |x| && 4 + U16(x, 2) <= |x|
    ensures var next := 4 + U16(x, 2); var e := Extension(U16(x, 0), x[4..next]);
            ValidExt(e) && x == EncodeExt(e) + x[next..]
  {
    var next := 4 + U16(x, 2);
    SplitBytes(x[0], x[1], U16(x, 0));
    SplitBytes(x[2], x[3], U16(x, 2));
    var r := EncodeExt(Extension(U16(x, 0), x[4..next]));
    assert r[0] == x[0] && r[1] == x[1] && r[2] == x[2] && r[3] == x[3] && r[4..] == x[4..next];
    assert x[..next] == r;
  }

  lemma ExtensionsStep(e: Extension, before: seq<Extension>, d: seq<byte>, rest: seq<byte>)
    requires ValidExt(e) && ExtensionsAt(rest, before, d)
    ensures ExtensionsAt(EncodeExt(e) + rest, [e] + before, d)
  {
    assert ([e] + before)[1..] == before;
    assert EncodeExts([e] + before) == EncodeExt(e) + EncodeExts(before);
    hide EncodeExt, EncodeExts;
    PrefixUnder(EncodeExt(e), EncodeExts(before), EncodeExt(Extension(0, d)), rest);
  }

  lemma {:induction false} ExtWalkSound(x: seq<byte>)
    requires ExtWalk(x).Some?
    ensures Carries(x, ExtWalk(x).value)
    decreases |x|
  {
    hide EncodeExt, EncodeExts, NamesAt;
    var next := 4 + U16(x, 2);
    ExtensionBytes(x);
    if U16(x, 0) == 0 && ServerName(x[4..next]).Some? {
      var d := x[4..next];
      var others := NameWalkSound(d, 2, 2 + Min(U16(d, 0), |d| - 2));
      assert Lists(d, ServerName(d).value);
      OnlyServerName(d, x[next..]);
      assert ExtensionsAt(x, [], d);
    } else {
      ExtWalkSound(x[next..]);
      var before, d :| ExtensionsAt(x[next..], before, d) && Lists(d, ExtWalk(x).value);
      ExtensionsStep(Extension(U16(x, 0), x[4..next]), before, d, x[next..]);
    }
  }

  lemma OnlyServerName(d: seq<byte>, rest: seq<byte>)
    requires |d| < 0x1_0000
    ensures ExtensionsAt(EncodeExt(Extension(0, d)) + rest, [], d)
  {
    hide EncodeExt;
    assert EncodeExts([]) == [];
  }

  /** Main result: a name that is returned is the host_name listed by a server_name extension of the hello. */
  lemma ExtractSound(data: seq<byte>)
    requires Extract(data).Name?
    ensures HelloBody(data).Some? && ExtensionBlock(HelloBody(data).value).Some?
    ensures Carries(ExtensionBlock(HelloBody(data).value).value, Extract(data).value)
  {
    hide ExtWalk, Carries;
    ExtWalkSound(ExtensionBlock(HelloBody(data).value).value);
  }

  // ---- Where the hello stands

  /** Where the hello ends: at its own length, the record's, or the data's, whichever is first. */
  function HelloEnd(data: seq<byte>): int
    requires |data| >= 9
  {
    9 + Min(U24(data, 6), Min(U16(data, 3), |data| - 5) - 4)
  }

  /** The lengths of session id, cipher list and compression list, and the start of the extensions, by position. */
  ghost predicate HelloFits(data: seq<byte>)
  {
    && |data| >= 9 && data[0] == 0x16 && U16(data, 3) >= 4 && data[5] == 1
    && var end := HelloEnd(data);
    && 44 <= end <= |data| && var s := data[43] as int;
    && 46 + s <= end && var c := U16(data, 44 + s) as int;
    && 47 + s + c <= end && var m := data[46 + s + c] as int;
    49 + s + c + m <= end
  }

  function ExtensionsStart(data: seq<byte>): nat
    requires HelloFits(data)
  {
    var s := data[43] as int;
    var c := U16(data, 44 + s) as int;
    49 + s + c + data[46 + s + c]
  }

  lemma BodyPlaced(data: seq<byte>)
    ensures HelloBody(data).Some? <==> |data| >= 9 && data[0] == 0x16 && U16(data, 3) >= 4 && data[5] == 1
    ensures HelloBody(data).Some? ==> 9 <= HelloEnd(data) <= |data| && HelloBody(data).value == data[9..HelloEnd(data)]
  {
    if |data| >= 9 {
      var n := Min(U16(data, 3), |data| - 5);
      var payload := data[5..5 + n];
      if n >= 4 {
        assert payload[0] == data[5] && U24(payload, 1) == U24(data, 6);
        SliceOfSlice(data, 5, 5 + n, 4, 4 + Min(U24(data, 6), n - 4));
      }
    }
  }

  lemma BlockPlaced(data: seq<byte>, end: nat)
    requires 9 <= end <= |data|
    ensures var ch := data[9..end];
            ExtensionBlock(ch).Some?
            <==> && 44 <= end && var s := data[43] as int;
                 && 46 + s <= end && var c := U16(data, 44 + s) as int;
                 && 47 + s + c <= end && 49 + s + c + data[46 + s + c] <= end
  {
    var ch := data[9..end];
    if end >= 44 {
      assert ch[34] == data[43];
      var s := data[43] as int;
      if 46 + s <= end {
        assert U16(ch, 35 + s) == U16(data, 44 + s);
      }
    }
  }

  lemma BlockBytes(data: seq<byte>, end: nat, lo: nat)
    requires 44 <= end <= |data|
    requires var s := data[43] as int; 46 + s <= end && var c := U16(data, 44 + s) as int;
             47 + s + c <= end && lo == 49 + s + c + data[46 + s + c] && lo <= end
    ensures ExtensionBlock(data[9..end]) == Some(data[lo..lo + Min(U16(data, lo - 2), end - lo)])
  {
    var ch, s := data[9..end], data[43] as int;
    var c := U16(data, 44 + s) as int;
    assert ch[34] == data[43] && U16(ch, 35 + s) == U16(data, 44 + s);
    assert ch[37 + s + c] == data[46 + s + c] && U16(ch, lo - 11) == U16(data, lo - 2);
    SliceOfSlice(data, 9, end, lo - 9, lo - 9 + Min(U16(data, lo - 2), end - lo));
  }

  /**
    Main result, by positions in the data: no hello is reported exactly when some part
    before the extensions is missing or is not a ClientHello's; otherwise the walk is
    over the extension bytes that are there.
   */
  lemma ExtractPlaced(data: seq<byte>)
    ensures Extract(data).NoHello? <==> !HelloFits(data)
    ensures HelloFits(data) ==>
              var lo, end := ExtensionsStart(data), HelloEnd(data);
              var block := data[lo..lo + Min(U16(data, lo - 2), end - lo)];
              Extract(data) == if ExtWalk(block).Some? then Name(ExtWalk(block).value) else Scan
  {
    hide ExtWalk;
    BodyPlaced(data);
    if HelloBody(data).Some? {
      BlockPlaced(data, HelloEnd(data));
      if HelloFits(data) { BlockBytes(data, HelloEnd(data), ExtensionsStart(data)); }
    }
    hide HelloBody, ExtensionBlock;
  }
}
