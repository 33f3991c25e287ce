// The EdgeMesh DNS codec: parsing a query, building the response, and reading that response as RFC 1035 says.
module Dns {
  import opened Text

  const HEADER := 12
  const A_RECORD := 1
  const TTL := 64
  const QR := 0x8000
  const DOT: byte := 0x2e

  function U16(b: seq<byte>, i: nat): (v: nat)
    requires i + 2 <= |b|
    ensures v < 0x1_0000
  {
    b[i] as nat * 256 + b[i + 1] as nat
  }

  function Put16(v: nat): (b: seq<byte>)
    requires v < 0x1_0000
    ensures |b| == 2 && U16(b, 0) == v && b[0] as nat * 256 + b[1] as nat == v
  {
    [(v / 256) as byte, (v % 256) as byte]
  }

  datatype Header = Header(id: nat, flags: nat, qd: nat, an: nat, ns: nat, ar: nat)

  ghost predicate ValidHeader(h: Header) {
    h.id < 0x1_0000 && h.flags < 0x1_0000 && h.qd < 0x1_0000 && h.an < 0x1_0000 && h.ns < 0x1_0000 && h.ar < 0x1_0000
  }

  /** getHeader. */
  function ReadHeader(b: seq<byte>): (h: Header)
    requires HEADER <= |b|
    ensures ValidHeader(h)
  {
    Header(U16(b, 0), U16(b, 2), U16(b, 4), U16(b, 6), U16(b, 8), U16(b, 10))
  }

  /** getByteFromDNSHeader. */
  function HeaderBytes(h: Header): (b: seq<byte>)
    requires ValidHeader(h)
    ensures |b| == HEADER
  {
    Put16(h.id) + Put16(h.flags) + Put16(h.qd) + Put16(h.an) + Put16(h.ns) + Put16(h.ar)
  }

  lemma HeaderRoundTrip(h: Header, rest: seq<byte>)
    requires ValidHeader(h)
    ensures ReadHeader(HeaderBytes(h) + rest) == h
  {
    var b := HeaderBytes(h) + rest;
    assert b[0..2] == Put16(h.id) && b[2..4] == Put16(h.flags) && b[4..6] == Put16(h.qd);
    assert b[6..8] == Put16(h.an) && b[8..10] == Put16(h.ns) && b[10..12] == Put16(h.ar);
    assert forall i | i in {0, 2, 4, 6, 8, 10} :: U16(b, i) == U16(b[i..i + 2], 0);
  }

  // ---------------------------------------------------------------- parsing a query

  /**
   * What parseDNSQuery yields. The buffer may be longer than the n bytes received: indexing past n
   * panics, while slices reach up to the end of the buffer.
   */
  datatype Parsed =
    | Panic
    | NotAQuery
    | Upstream
    | Question(head: Header, name: seq<byte>, queBytes: seq<byte>, qType: nat, qClass: nat)

  /** getQName from an offset on, with the name read so far. */
  function ScanName(buf: seq<byte>, n: nat, at: nat, name: seq<byte>): (r: Option<(seq<byte>, nat)>)
    requires n <= |buf|
    ensures r.Some? ==> at < r.value.1 <= n
    decreases |buf| - at
  {
    if at >= n then None
    else
      var len := buf[at] as nat;
      if len == 0 then (if name == [] then None else Some((name[..|name| - 1], at + 1)))
      else if at + 1 + len > |buf| then None
      else ScanName(buf, n, at + 1 + len, name + buf[at + 1..at + 1 + len] + [DOT])
  }

  function Parse(buf: seq<byte>, n: nat): Parsed
    requires n <= |buf| && HEADER <= |buf|
  {
    var head := ReadHeader(buf);
    if head.flags >= QR then NotAQuery
    else if head.qd != 1 then Upstream
    else if n <= HEADER then Panic
    else if buf[HEADER] == 0 then Upstream
    else
      var q := ScanName(buf, n, HEADER, []);
      if q.None? || q.value.1 + 4 > |buf| then Panic
      else
        var (name, end) := q.value;
        Question(head, name, buf[HEADER..end + 4], U16(buf, end), U16(buf, end + 2))
  }

  /** getQName as a loop over a moving offset. */
  method GetQName(buf: seq<byte>, n: nat, offset: nat) returns (ok: bool, name: seq<byte>, end: nat)
    requires n <= |buf|
    ensures var r := ScanName(buf, n, offset, []);
            ok == r.Some? && (ok ==> r.value == (name, end))
  {
    var at := offset;
    name, ok, end := [], true, 0;
    while true
      invariant ScanName(buf, n, offset, []) == ScanName(buf, n, at, name) && ok
      decreases |buf| - at
    {
      if at >= n {
        ok := false;
        return;
      }
      var len := buf[at] as nat;
      if len == 0 {
        if |name| == 0 {
          ok := false;
          return;
        }
        name := name[..|name| - 1];
        end := at + 1;
        return;
      }
      at := at + 1;
      if at + len > |buf| {
        ok := false;
        return;
      }
      name := name + buf[at..at + len];
      name := name + [DOT];
      at := at + len;
    }
  }

  method ParseDNSQuery(buf: seq<byte>, n: nat) returns (q: Parsed)
    requires n <= |buf| && HEADER <= |buf|
    ensures q == Parse(buf, n)
  {
    var head := ReadHeader(buf);
    if head.flags >= QR { return NotAQuery; }
    if head.qd != 1 { return Upstream; }
    if n <= HEADER { return Panic; }
    if buf[HEADER] == 0 { return Upstream; }
    var ok, name, end := GetQName(buf, n, HEADER);
    if !ok || end + 4 > |buf| { return Panic; }
    q := Question(head, name, buf[HEADER..end + 4], U16(buf, end), U16(buf, end + 2));
  }

  // ---------------------------------------------------------------- names on the wire

  type Label = seq<byte>

  /** Section 3.1: at least one label, each of 1 to 63 bytes. */
  ghost predicate WellFormedName(labels: seq<Label>) {
    |labels| >= 1 && forall i :: 0 <= i < |labels| ==> 1 <= |labels[i]| <= 63
  }

  ghost predicate Labels(labels: seq<Label>) { forall i :: 0 <= i < |labels| ==> 1 <= |labels[i]| <= 63 }

  ghost function EncodeLabels(labels: seq<Label>): seq<byte>
    requires Labels(labels)
  {
    if labels == [] then [0] else [|labels[0]| as byte] + labels[0] + EncodeLabels(labels[1..])
  }

  ghost function Dotted(labels: seq<Label>): seq<byte> {
    if labels == [] then [] else labels[0] + [DOT] + Dotted(labels[1..])
  }

  /** The name a query asks for: the labels with dots between them. */
  ghost function DottedName(labels: seq<Label>): seq<byte>
    requires |labels| >= 1
  {
    var d := Dotted(labels);
    assert |d| >= 1;
    d[..|d| - 1]
  }

  ghost predicate At(b: seq<byte>, i: nat, part: seq<byte>) { i + |part| <= |b| && b[i..i + |part|] == part }

  lemma AtSplit(b: seq<byte>, i: nat, x: seq<byte>, y: seq<byte>)
    requires At(b, i, x + y)
    ensures At(b, i, x) && At(b, i + |x|, y)
  {
    assert (x + y)[..|x|] == x && (x + y)[|x|..] == y;
    assert b[i..i + |x + y|][..|x|] == b[i..i + |x|];
    assert b[i..i + |x + y|][|x|..] == b[i + |x|..i + |x| + |y|];
  }

  /** Reading off the first label. */
  lemma EncodedHead(buf: seq<byte>, at: nat, labels: seq<Label>)
    requires Labels(labels) && labels != [] && At(buf, at, EncodeLabels(labels))
    ensures at < |buf| && buf[at] as nat == |labels[0]|
    ensures at + 1 + |labels[0]| <= |buf| && buf[at + 1..at + 1 + |labels[0]|] == labels[0]
    ensures At(buf, at + 1 + |labels[0]|, EncodeLabels(labels[1..]))
    ensures |EncodeLabels(labels)| == 1 + |labels[0]| + |EncodeLabels(labels[1..])|
  {
    var l := labels[0];
    AtSplit(buf, at, [|l| as byte] + l, EncodeLabels(labels[1..]));
    AtSplit(buf, at, [|l| as byte], l);
    assert buf[at] == buf[at..at + 1][0] == |l| as byte;
  }

  lemma DottedStep(name: seq<byte>, labels: seq<Label>)
    requires labels != []
    ensures name + labels[0] + [DOT] + Dotted(labels[1..]) == name + Dotted(labels)
  {
  }

  lemma {:induction false} ScanEncoded(buf: seq<byte>, n: nat, at: nat, labels: seq<Label>, name: seq<byte>)
    requires n <= |buf| && Labels(labels) && At(buf, at, EncodeLabels(labels)) && at + |EncodeLabels(labels)| <= n
    requires name + Dotted(labels) != []
    ensures ScanName(buf, n, at, name) ==
              Some(((name + Dotted(labels))[..|name + Dotted(labels)| - 1], at + |EncodeLabels(labels)|))
    decreases |labels|
  {
    if labels == [] {
      assert buf[at] == buf[at..at + 1][0] == 0;
      assert name + Dotted(labels) == name;
    } else {
      var l := labels[0];
      EncodedHead(buf, at, labels);
      DottedStep(name, labels);
      ScanEncoded(buf, n, at + 1 + |l|, labels[1..], name + l + [DOT]);
    }
  }

  // ---------------------------------------------------------------- queries

  /** A question section: name, type and class (section 4.1.2). */
  ghost function QuestionBytes(labels: seq<Label>, qType: nat, qClass: nat): seq<byte>
    requires Labels(labels) && qType < 0x1_0000 && qClass < 0x1_0000
  {
    EncodeLabels(labels) + Put16(qType) + Put16(qClass)
  }

  /** A well-formed query with one question, whatever follows it. */
  ghost predicate IsQuery(buf: seq<byte>, n: nat, h: Header, labels: seq<Label>, qType: nat, qClass: nat) {
    && ValidHeader(h) && h.flags < QR && h.qd == 1 && WellFormedName(labels) && qType < 0x1_0000 && qClass < 0x1_0000
    && n <= |buf| && HEADER + |QuestionBytes(labels, qType, qClass)| <= n
    && HeaderBytes(h) + QuestionBytes(labels, qType, qClass) <= buf
  }

  lemma AtU16(b: seq<byte>, i: nat, v: nat)
    requires v < 0x1_0000 && At(b, i, Put16(v))
    ensures U16(b, i) == v
  {
    assert b[i..i + 2][0] == b[i] && b[i..i + 2][1] == b[i + 1];
    assert U16(b[i..i + 2], 0) == v;
  }

  lemma PrefixAt(b: seq<byte>, x: seq<byte>, y: seq<byte>)
    requires x + y <= b
    ensures At(b, |x|, y) && b == x + b[|x|..]
  {
    assert b[..|x + y|] == x + y;
    assert (x + y)[|x|..] == y;
    assert b[|x|..|x| + |y|] == b[..|x + y|][|x|..];
  }

  /** Where the parts of a question sit. */
  lemma QuestionLayout(b: seq<byte>, at: nat, labels: seq<Label>, qType: nat, qClass: nat)
    requires Labels(labels) && qType < 0x1_0000 && qClass < 0x1_0000 && At(b, at, QuestionBytes(labels, qType, qClass))
    ensures |QuestionBytes(labels, qType, qClass)| == |EncodeLabels(labels)| + 4
    ensures At(b, at, EncodeLabels(labels))
    ensures var end := at + |EncodeLabels(labels)|; end + 4 <= |b| && U16(b, end) == qType && U16(b, end + 2) == qClass
  {
    var name := EncodeLabels(labels);
    AtSplit(b, at, name + Put16(qType), Put16(qClass));
    AtSplit(b, at, name, Put16(qType));
    AtU16(b, at + |name|, qType);
    AtU16(b, at + |name| + 2, qClass);
  }

  lemma HeaderPart(buf: seq<byte>, h: Header, q: seq<byte>)
    requires ValidHeader(h) && HeaderBytes(h) + q <= buf
    ensures HEADER <= |buf| && ReadHeader(buf) == h && At(buf, HEADER, q)
  {
    PrefixAt(buf, HeaderBytes(h), q);
    HeaderRoundTrip(h, buf[HEADER..]);
  }

  lemma NameScan(buf: seq<byte>, n: nat, labels: seq<Label>)
    requires n <= |buf| && WellFormedName(labels) && At(buf, HEADER, EncodeLabels(labels)) && HEADER + |EncodeLabels(labels)| <= n
    ensures HEADER < |buf| && buf[HEADER] != 0
    ensures ScanName(buf, n, HEADER, []) == Some((DottedName(labels), HEADER + |EncodeLabels(labels)|))
  {
    EncodedHead(buf, HEADER, labels);
    var d := Dotted(labels);
    DottedStep([], labels);
    assert |d| >= 1 && [] + d == d;
    ScanEncoded(buf, n, HEADER, labels, []);
    assert DottedName(labels) == d[..|d| - 1];
  }

  /** The parser recovers the header, the dotted name and the exact question bytes of every well-formed query. */
  lemma ParseQuery(buf: seq<byte>, n: nat, h: Header, labels: seq<Label>, qType: nat, qClass: nat)
    requires IsQuery(buf, n, h, labels, qType, qClass)
    ensures HEADER <= |buf|
    ensures Parse(buf, n) == Question(h, DottedName(labels), QuestionBytes(labels, qType, qClass), qType, qClass)
  {
    HeaderPart(buf, h, QuestionBytes(labels, qType, qClass));
    QuestionLayout(buf, HEADER, labels, qType, qClass);
    NameScan(buf, n, labels);
  }

  // ---------------------------------------------------------------- responses

  function SetQR(flags: nat): nat { if flags >= QR then flags else flags + QR }

  /** getAnswer for an A question: a pointer to offset 12, then type, class, TTL, length and address. */
  function AnswerBytes(qType: nat, qClass: nat, addr: seq<byte>): seq<byte>
    requires qType < 0x1_0000 && qClass < 0x1_0000 && |addr| < 0x1_0000
  {
    if qType == A_RECORD then [0xc0, 0x0c] + Put16(qType) + Put16(qClass) + Put16(0) + Put16(TTL) + Put16(|addr|) + addr else []
  }

  /** modifyRspPrefix: the query's header turned into a response, and the question echoed. */
  function Prefix(q: Parsed, refused: bool): seq<byte>
    requires q.Question? && ValidHeader(q.head) && q.qType == A_RECORD
  {
    var flags := SetQR(q.head.flags);
    HeaderBytes(q.head.(flags := if refused then SetRefused(flags) else flags, an := 1)) + q.queBytes
  }

  /** flags |= 5, bit by bit. */
  function SetRefused(flags: nat): (r: nat)
    requires flags < 0x1_0000
    ensures r < 0x1_0000
  {
    var f := if flags % 2 == 0 then flags + 1 else flags;
    if f % 8 < 4 then f + 4 else f
  }

  /** recordHandle once the name belongs to this cluster; address is None when the service has no IPv4 address. */
  function Respond(q: Parsed, address: Option<seq<byte>>): seq<byte>
    requires q.Question? && ValidHeader(q.head) && q.qType == A_RECORD && q.qClass < 0x1_0000
    requires address.Some? ==> |address.value| == 4
  {
    if address.None? then Prefix(q, true)
    else Prefix(q, false) + AnswerBytes(q.qType, q.qClass, address.value)
  }

  // ---------------------------------------------------------------- reading a message as RFC 1035 says

  /**
   * A name at an offset (sections 3.1 and 4.1.4): labels up to a zero byte or to a pointer, which must
   * lead to a name that starts earlier. The result holds the labels and the offset after the name.
   */
  ghost function DecodeName(msg: seq<byte>, at: nat, limit: nat): Option<(seq<Label>, nat)>
    decreases limit, |msg| - at
  {
    if at >= |msg| then None
    else
      var len := msg[at] as nat;
      if len == 0 then Some(([], at + 1))
      else if len < 64 then
        if at + 1 + len > |msg| then None
        else
          var rest := DecodeName(msg, at + 1 + len, limit);
          if rest.None? then None else Some(([msg[at + 1..at + 1 + len]] + rest.value.0, rest.value.1))
      else if len < 192 || at + 2 > |msg| then None
      else
        var target := U16(msg, at) - 0xc000;
        if target >= limit then None
        else
          var rest := DecodeName(msg, target, target);
          if rest.None? then None else Some((rest.value.0, at + 2))
  }

  datatype Entry = Entry(labels: seq<Label>, qType: nat, qClass: nat)
  datatype Record = Record(labels: seq<Label>, rType: nat, rClass: nat, ttl: nat, data: seq<byte>)

  ghost function DecodeQuestion(msg: seq<byte>, at: nat): Option<(Entry, nat)> {
    var name := DecodeName(msg, at, at);
    if name.None? || name.value.1 + 4 > |msg| then None
    else
      var end := name.value.1;
      Some((Entry(name.value.0, U16(msg, end), U16(msg, end + 2)), end + 4))
  }

  ghost function DecodeRecord(msg: seq<byte>, at: nat): Option<(Record, nat)> {
    var name := DecodeName(msg, at, at);
    if name.None? || name.value.1 + 10 > |msg| then None
    else
      var end := name.value.1;
      var len := U16(msg, end + 8);
      if end + 10 + len > |msg| then None
      else Some((Record(name.value.0, U16(msg, end), U16(msg, end + 2), U16(msg, end + 4) * 0x1_0000 + U16(msg, end + 6),
                        msg[end + 10..end + 10 + len]), end + 10 + len))
  }

  ghost function DecodeQuestions(msg: seq<byte>, at: nat, count: nat): Option<(seq<Entry>, nat)>
    decreases count
  {
    if count == 0 then Some(([], at))
    else
      var first := DecodeQuestion(msg, at);
      if first.None? then None
      else
        var rest := DecodeQuestions(msg, first.value.1, count - 1);
        if rest.None? then None else Some(([first.value.0] + rest.value.0, rest.value.1))
  }

  ghost function DecodeRecords(msg: seq<byte>, at: nat, count: nat): Option<(seq<Record>, nat)>
    decreases count
  {
    if count == 0 then Some(([], at))
    else
      var first := DecodeRecord(msg, at);
      if first.None? then None
      else
        var rest := DecodeRecords(msg, first.value.1, count - 1);
        if rest.None? then None else Some(([first.value.0] + rest.value.0, rest.value.1))
  }

  datatype Message = Message(head: Header, questions: seq<Entry>, records: seq<Record>)

  /** A whole message (section 4.1): every counted entry is there and nothing is left over. */
  ghost function Decode(msg: seq<byte>): Option<Message> {
    if |msg| < HEADER then None
    else
      var h := ReadHeader(msg);
      var qs := DecodeQuestions(msg, HEADER, h.qd);
      if qs.None? then None
      else
        var rs := DecodeRecords(msg, qs.value.1, h.an + h.ns + h.ar);
        if rs.None? || rs.value.1 != |msg| then None else Some(Message(h, qs.value.0, rs.value.0))
  }

  lemma {:induction false} DecodeEncodedName(msg: seq<byte>, at: nat, limit: nat, labels: seq<Label>)
    requires Labels(labels) && At(msg, at, EncodeLabels(labels))
    ensures DecodeName(msg, at, limit) == Some((labels, at + |EncodeLabels(labels)|))
    decreases |labels|
  {
    if labels == [] {
      assert msg[at] == msg[at..at + 1][0] == 0;
    } else {
      EncodedHead(msg, at, labels);
      DecodeEncodedName(msg, at + 1 + |labels[0]|, limit, labels[1..]);
      assert [labels[0]] + labels[1..] == labels;
    }
  }

  lemma PointerName(msg: seq<byte>, at: nat, labels: seq<Label>)
    requires Labels(labels) && At(msg, HEADER, EncodeLabels(labels)) && HEADER < at && At(msg, at, [0xc0, 0x0c])
    ensures DecodeName(msg, at, at) == Some((labels, at + 2))
  {
    assert msg[at..at + 2][0] == msg[at] && msg[at..at + 2][1] == msg[at + 1];
    assert U16(msg, at) == 0xc00c;
    DecodeEncodedName(msg, HEADER, HEADER, labels);
  }

  lemma QuestionAt(msg: seq<byte>, at: nat, labels: seq<Label>, qType: nat, qClass: nat)
    requires Labels(labels) && qType < 0x1_0000 && qClass < 0x1_0000 && At(msg, at, QuestionBytes(labels, qType, qClass))
    ensures DecodeQuestions(msg, at, 1) == Some(([Entry(labels, qType, qClass)], at + |QuestionBytes(labels, qType, qClass)|))
    ensures At(msg, at, EncodeLabels(labels))
  {
    QuestionLayout(msg, at, labels, qType, qClass);
    DecodeEncodedName(msg, at, at, labels);
    var e := Entry(labels, qType, qClass);
    assert DecodeQuestion(msg, at) == Some((e, at + |QuestionBytes(labels, qType, qClass)|));
    assert [e] + [] == [e];
  }

  lemma AnswerFields(msg: seq<byte>, at: nat, qClass: nat, addr: seq<byte>)
    requires qClass < 0x1_0000 && |addr| == 4 && At(msg, at, AnswerBytes(A_RECORD, qClass, addr))
    ensures At(msg, at, [0xc0, 0x0c]) && At(msg, at + 2, Put16(A_RECORD)) && At(msg, at + 4, Put16(qClass)) && At(msg, at + 6, Put16(0))
    ensures At(msg, at + 8, Put16(TTL)) && At(msg, at + 10, Put16(4)) && At(msg, at + 12, addr)
  {
    var a5 := [0xc0, 0x0c] + Put16(A_RECORD) + Put16(qClass) + Put16(0) + Put16(TTL);
    var a4 := [0xc0, 0x0c] + Put16(A_RECORD) + Put16(qClass) + Put16(0);
    var a3 := [0xc0, 0x0c] + Put16(A_RECORD) + Put16(qClass);
    var a2 := [0xc0, 0x0c] + Put16(A_RECORD);
    AtSplit(msg, at, a5 + Put16(4), addr);
    AtSplit(msg, at, a5, Put16(4));
    AtSplit(msg, at, a4, Put16(TTL));
    AtSplit(msg, at, a3, Put16(0));
    AtSplit(msg, at, a2, Put16(qClass));
    AtSplit(msg, at, [0xc0, 0x0c], Put16(A_RECORD));
  }

  lemma AnswerAt(msg: seq<byte>, at: nat, labels: seq<Label>, qClass: nat, addr: seq<byte>)
    requires Labels(labels) && At(msg, HEADER, EncodeLabels(labels)) && HEADER < at && qClass < 0x1_0000 && |addr| == 4
    requires At(msg, at, AnswerBytes(A_RECORD, qClass, addr))
    ensures DecodeRecord(msg, at) == Some((Record(labels, A_RECORD, qClass, TTL, addr), at + 16))
  {
    AnswerFields(msg, at, qClass, addr);
    PointerName(msg, at, labels);
    AtU16(msg, at + 2, A_RECORD);
    AtU16(msg, at + 4, qClass);
    AtU16(msg, at + 6, 0);
    AtU16(msg, at + 8, TTL);
    AtU16(msg, at + 10, 4);
  }

  /** Records counted but not sent make the message unreadable. */
  lemma NoRecordsAtEnd(msg: seq<byte>, count: nat)
    ensures DecodeRecords(msg, |msg|, count).Some? <==> count == 0
  {
  }

  lemma RecordsThenEnd(msg: seq<byte>, at: nat, r: Record, extra: nat)
    requires DecodeRecord(msg, at) == Some((r, |msg|))
    ensures DecodeRecords(msg, at, 1 + extra) == if extra == 0 then Some(([r], |msg|)) else None
  {
    NoRecordsAtEnd(msg, extra);
    assert [r] + [] == [r];
  }

  /** What the parser hands on for an A question. */
  ghost function Asked(h: Header, labels: seq<Label>, qClass: nat): Parsed
    requires WellFormedName(labels) && qClass < 0x1_0000
  {
    Question(h, DottedName(labels), QuestionBytes(labels, A_RECORD, qClass), A_RECORD, qClass)
  }

  ghost predicate Askable(h: Header, labels: seq<Label>, qClass: nat) {
    ValidHeader(h) && h.flags < QR && h.qd == 1 && WellFormedName(labels) && qClass < 0x1_0000
  }

  lemma ResponseBytes(h: Header, labels: seq<Label>, qClass: nat, addr: seq<byte>)
    requires Askable(h, labels, qClass) && |addr| == 4
    ensures Respond(Asked(h, labels, qClass), Some(addr)) ==
            HeaderBytes(h.(flags := h.flags + QR, an := 1)) + (QuestionBytes(labels, A_RECORD, qClass) + AnswerBytes(A_RECORD, qClass, addr))
  {
  }

  lemma DecodeParts(msg: seq<byte>, head: Header, q: seq<byte>, a: seq<byte>, labels: seq<Label>, qClass: nat, addr: seq<byte>)
    requires ValidHeader(head) && head.qd == 1 && head.an == 1 && WellFormedName(labels) && qClass < 0x1_0000 && |addr| == 4
    requires q == QuestionBytes(labels, A_RECORD, qClass) && a == AnswerBytes(A_RECORD, qClass, addr)
    requires msg == HeaderBytes(head) + (q + a)
    ensures Decode(msg) ==
            if head.ns == 0 && head.ar == 0 then
              Some(Message(head, [Entry(labels, A_RECORD, qClass)], [Record(labels, A_RECORD, qClass, TTL, addr)]))
            else None
  {
    var (at, e, r) := (HEADER + |q|, Entry(labels, A_RECORD, qClass), Record(labels, A_RECORD, qClass, TTL, addr));
    assert HEADER <= |msg| && ReadHeader(msg) == head && At(msg, HEADER, q) && At(msg, at, a) by {
      HeaderPart(msg, head, q + a);
      AtSplit(msg, HEADER, q, a);
    }
    assert |msg| == at + 16 by { AnswerLength(qClass, addr); }
    assert DecodeQuestions(msg, HEADER, 1) == Some(([e], at)) && At(msg, HEADER, EncodeLabels(labels)) by {
      QuestionAt(msg, HEADER, labels, A_RECORD, qClass);
    }
    assert DecodeRecord(msg, at) == Some((r, |msg|)) by {
      AnswerAt(msg, at, labels, qClass, addr);
    }
    RecordsThenEnd(msg, at, r, head.ns + head.ar);
    DecodeFrom(msg, head, [e], at);
  }

  lemma AnswerLength(qClass: nat, addr: seq<byte>)
    requires qClass < 0x1_0000 && |addr| == 4
    ensures |AnswerBytes(A_RECORD, qClass, addr)| == 16
  {
  }

  lemma DecodeFrom(msg: seq<byte>, head: Header, qs: seq<Entry>, at: nat)
    requires HEADER <= |msg| && ReadHeader(msg) == head && DecodeQuestions(msg, HEADER, head.qd) == Some((qs, at))
    ensures var rs := DecodeRecords(msg, at, head.an + head.ns + head.ar);
            Decode(msg) == if rs.Some? && rs.value.1 == |msg| then Some(Message(head, qs, rs.value.0)) else None
  {
  }

  /**
   * Every well-formed A query that resolves to an IPv4 address is answered with a message that reads
   * back as: the same id, a response, the question echoed and one A record for the question name.
   * This holds exactly when the query announced no authority and no additional records.
   */
  lemma ResponseReadsBack(buf: seq<byte>, n: nat, h: Header, labels: seq<Label>, qClass: nat, addr: seq<byte>)
    requires IsQuery(buf, n, h, labels, A_RECORD, qClass) && |addr| == 4
    ensures HEADER <= |buf| && Parse(buf, n) == Asked(h, labels, qClass)
    ensures Decode(Respond(Asked(h, labels, qClass), Some(addr))) ==
            if h.ns == 0 && h.ar == 0 then
              Some(Message(h.(flags := h.flags + QR, an := 1), [Entry(labels, A_RECORD, qClass)],
                           [Record(labels, A_RECORD, qClass, TTL, addr)]))
            else None
  {
    ParseQuery(buf, n, h, labels, A_RECORD, qClass);
    ResponseBytes(h, labels, qClass, addr);
    DecodeParts(Respond(Asked(h, labels, qClass), Some(addr)), h.(flags := h.flags + QR, an := 1),
                QuestionBytes(labels, A_RECORD, qClass), AnswerBytes(A_RECORD, qClass, addr), labels, qClass, addr);
  }

  /** Without an IPv4 address the response counts an answer it does not carry, and so never reads back. */
  lemma RefusalNeverReadsBack(buf: seq<byte>, n: nat, h: Header, labels: seq<Label>, qClass: nat)
    requires IsQuery(buf, n, h, labels, A_RECORD, qClass)
    ensures HEADER <= |buf| && Parse(buf, n) == Asked(h, labels, qClass)
    ensures Decode(Respond(Asked(h, labels, qClass), None)).None?
  {
    ParseQuery(buf, n, h, labels, A_RECORD, qClass);
    var q := QuestionBytes(labels, A_RECORD, qClass);
    var head := h.(flags := SetRefused(h.flags + QR), an := 1);
    var msg := Respond(Asked(h, labels, qClass), None);
    assert msg == HeaderBytes(head) + q;
    HeaderPart(msg, head, q);
    QuestionAt(msg, HEADER, labels, A_RECORD, qClass);
    NoRecordsAtEnd(msg, 1 + h.ns + h.ar);
  }

  /** The parser only yields 16-bit fields. */
  ghost predicate Wide(q: Parsed) { q.Question? ==> ValidHeader(q.head) && q.qClass < 0x1_0000 }

  /** recordHandle: only A questions for services of this cluster are answered here; None goes to a real server. */
  ghost function Handle(q: Parsed, found: bool, address: Option<seq<byte>>): Option<seq<byte>>
    requires Wide(q) && (address.Some? ==> |address.value| == 4)
  {
    if q.Question? && q.qType == A_RECORD && found then Some(Respond(q, address)) else None
  }

  /**
   * recordHandle, assembling the response piece by piece; None forwards the query to a real server.
   * found tells whether the name is a service of this cluster, address is its IPv4 address if it has one.
   */
  method RecordHandle(q: Parsed, found: bool, address: Option<seq<byte>>) returns (rsp: Option<seq<byte>>)
    requires Wide(q) && (address.Some? ==> |address.value| == 4)
    ensures rsp == Handle(q, found, address)
    ensures rsp.Some? <==> q.Question? && q.qType == 1 && found
  {
    var exist := false;
    if q.Question? && q.qType == A_RECORD {
      exist := found;
    }
    if !exist {
      return None;
    }
    var head := q.head.(flags := SetQR(q.head.flags));
    head := head.(an := 1);
    if address.None? {
      head := head.(flags := SetRefused(head.flags));
    }
    var bytes := HeaderBytes(head);
    bytes := bytes + q.queBytes;
    if address.None? {
      return Some(bytes);
    }
    var answer: seq<byte> := [0xc0];
    answer := answer + [0x0c];
    answer := answer + Put16(q.qType);
    answer := answer + Put16(q.qClass);
    answer := answer + (Put16(0) + Put16(TTL));
    answer := answer + Put16(|address.value|);
    answer := answer + address.value;
    assert answer == AnswerBytes(q.qType, q.qClass, address.value);
    rsp := Some(bytes + answer);
  }

  // ---------------------------------------------------------------- end to end

  lemma PlusEight(y: nat)
    ensures (y + 8) % 8 == y % 8
  {
  }

  lemma PlusTwo(y: nat)
    ensures (y + 2) % 2 == y % 2
  {
  }

  lemma {:induction false} EightsAway(q: nat, x: nat)
    ensures (8 * q + x) % 8 == x % 8
  {
    if q > 0 {
      EightsAway(q - 1, x);
      PlusEight(8 * (q - 1) + x);
    }
  }

  lemma {:induction false} TwosAway(q: nat, x: nat)
    ensures (2 * q + x) % 2 == x % 2
  {
    if q > 0 {
      TwosAway(q - 1, x);
      PlusTwo(2 * (q - 1) + x);
    }
  }

  function Or5(x: nat): nat {
    var y := if x % 2 == 0 then x + 1 else x;
    if y % 8 < 4 then y + 4 else y
  }

  lemma RefusedLow(d: nat, x: nat)
    requires x < 16 && 16 * d + x < 0x1_0000
    ensures SetRefused(16 * d + x) == 16 * d + Or5(x)
  {
    TwosAway(8 * d, x);
    EightsAway(2 * d, if x % 2 == 0 then x + 1 else x);
  }

  lemma Or5Is(x: nat)
    requires x < 16
    ensures Or5(x) < 16 && (Or5(x) == 5 <==> x in {0, 1, 4, 5})
  {
  }

  /**
   * Every well-formed question, end to end: it is answered here exactly when it asks for an A record of a service of
   * this cluster. With an address the answer decodes to the echoed question and one A record with that address, exactly
   * when the query counted no authority and no additional records.
   */
  lemma QuestionIsAnswered(buf: seq<byte>, n: nat, h: Header, labels: seq<Label>, qType: nat, qClass: nat, found: bool, addr: seq<byte>)
    requires IsQuery(buf, n, h, labels, qType, qClass) && |addr| == 4
    ensures HEADER <= |buf| && Wide(Parse(buf, n))
    ensures var rsp := Handle(Parse(buf, n), found, Some(addr));
            && (rsp.Some? <==> qType == 1 && found)
            && (rsp.Some? ==>
                  Decode(rsp.value) ==
                  if h.ns == 0 && h.ar == 0 then
                    Some(Message(h.(flags := h.flags + 0x8000, an := 1), [Entry(labels, 1, qClass)], [Record(labels, 1, qClass, 64, addr)]))
                  else None)
  {
    ParseQuery(buf, n, h, labels, qType, qClass);
    if qType == 1 && found {
      ResponseReadsBack(buf, n, h, labels, qClass, addr);
    }
  }

  lemma PrefixParts(msg: seq<byte>, head: Header, q: seq<byte>)
    requires ValidHeader(head) && msg == HeaderBytes(head) + q
    ensures HEADER <= |msg| && msg[HEADER..] == q && ReadHeader(msg) == head
  {
    HeaderRoundTrip(head, q);
  }

  lemma PlusSixteen(y: nat)
    ensures (y + 16) % 16 == y % 16
  {
  }

  lemma {:induction false} SixteensAway(q: nat, x: nat)
    ensures (16 * q + x) % 16 == x % 16
  {
    if q > 0 {
      SixteensAway(q - 1, x);
      PlusSixteen(16 * (q - 1) + x);
    }
  }

  /** Setting the refused bits of a response: it stays one, and the response code is 5 for a query that had none. */
  lemma RefusedFlags(flags: nat)
    requires flags < QR
    ensures SetRefused(flags + QR) >= QR && (SetRefused(flags + QR) % 16 == 5 <==> flags % 16 in {0, 1, 4, 5})
  {
    var (d, x) := (flags / 16 + 2048, flags % 16);
    assert flags + QR == 16 * d + x;
    RefusedLow(d, x);
    Or5Is(x);
    SixteensAway(d, Or5(x));
  }

  lemma RefusalHeader(h: Header, labels: seq<Label>, qClass: nat)
    requires Askable(h, labels, qClass)
    ensures var (rsp, head) := (Respond(Asked(h, labels, qClass), None), h.(flags := SetRefused(h.flags + QR), an := 1));
            HEADER <= |rsp| && rsp[HEADER..] == QuestionBytes(labels, A_RECORD, qClass) && ReadHeader(rsp) == head
  {
    PrefixParts(Respond(Asked(h, labels, qClass), None), h.(flags := SetRefused(h.flags + QR), an := 1),
                QuestionBytes(labels, A_RECORD, qClass));
  }

  /** A response with the query's id, counts and question, marked refused, with an answer counted. */
  ghost predicate Refusal(rsp: seq<byte>, h: Header, question: seq<byte>) {
    && HEADER <= |rsp| && rsp[HEADER..] == question
    && var head := ReadHeader(rsp);
       && head == h.(flags := head.flags, an := 1) && head.flags >= 0x8000
       && (head.flags % 16 == 5 <==> h.flags % 16 in {0, 1, 4, 5})
  }

  lemma RefusalIs(h: Header, labels: seq<Label>, qClass: nat)
    requires Askable(h, labels, qClass)
    ensures Refusal(Respond(Asked(h, labels, qClass), None), h, QuestionBytes(labels, A_RECORD, qClass))
  {
    RefusalHeader(h, labels, qClass);
    RefusedFlags(h.flags);
  }

  /** Without an IPv4 address: the same id, a response, refused, and the question echoed; nothing decodes it. */
  lemma QuestionIsRefused(buf: seq<byte>, n: nat, h: Header, labels: seq<Label>, qType: nat, qClass: nat, found: bool)
    requires IsQuery(buf, n, h, labels, qType, qClass)
    ensures HEADER <= |buf| && Wide(Parse(buf, n))
    ensures var rsp := Handle(Parse(buf, n), found, None);
            && (rsp.Some? <==> qType == 1 && found)
            && (rsp.Some? ==> Refusal(rsp.value, h, QuestionBytes(labels, qType, qClass)) && Decode(rsp.value).None?)
  {
    ParseQuery(buf, n, h, labels, qType, qClass);
    if qType == 1 {
      RefusalNeverReadsBack(buf, n, h, labels, qClass);
      RefusalIs(h, labels, qClass);
    }
  }

  /** Responses are ignored; anything but one question, and a question for the root, goes to a real server. */
  lemma ParseCases(buf: seq<byte>, n: nat)
    requires n <= |buf| && HEADER <= |buf|
    ensures var (q, h) := (Parse(buf, n), ReadHeader(buf));
            && (q.NotAQuery? <==> h.flags >= 0x8000)
            && (q.Upstream? <==> h.flags < 0x8000 && (h.qd != 1 || (n > 12 && buf[12] == 0)))
            && (q.Question? ==> q.head == h && |q.queBytes| >= 4 && At(buf, 12, q.queBytes))
  {
  }
}
