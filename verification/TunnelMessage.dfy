// Tunnel frames: two varints and the payload, written through a fixed 16-byte header buffer.
module TunnelMessage {
  import opened Text

  const UINT64: nat := 0x1_0000_0000_0000_0000
  const BUFFER := 16
  const MAX_VARINT := 10

  datatype Message = Message(connectId: nat, kind: nat, data: seq<byte>)

  ghost predicate Valid(m: Message) { m.connectId < UINT64 && m.kind < UINT64 }

  /** The varint encoding: seven bits a byte, low bits first, the high bit set on all but the last byte. */
  function Varint(x: nat): (b: seq<byte>)
    ensures |b| >= 1
  {
    if x < 128 then [x as byte] else [(x % 128 + 128) as byte] + Varint(x / 128)
  }

  function Pow128(n: nat): (p: nat)
    ensures p >= 1
  {
    if n == 0 then 1 else 128 * Pow128(n - 1)
  }

  lemma {:induction false} VarintLength(x: nat, n: nat)
    requires n >= 1
    ensures |Varint(x)| <= n <==> x < Pow128(n)
  {
    if x >= 128 && n > 1 {
      VarintLength(x / 128, n - 1);
    } else if x < 128 {
      PowAtLeast(n);
    }
  }

  lemma {:induction false} PowAtLeast(n: nat)
    requires n >= 1
    ensures Pow128(n) >= 128
  {
    if n > 1 { PowAtLeast(n - 1); }
  }

  lemma PowValues()
    ensures Pow128(10) >= UINT64 && Pow128(9) == 0x8000_0000_0000_0000
    ensures Pow128(6) == 0x400_0000_0000
  {
    assert Pow128(3) == 0x20_0000;
    assert Pow128(6) == 128 * (128 * (128 * Pow128(3)));
    assert Pow128(9) == 128 * (128 * (128 * Pow128(6)));
  }

  /** Bytes: None is the panic of writing past the header buffer. */
  function Frame(m: Message): Option<seq<byte>> {
    var head := Varint(m.connectId) + Varint(m.kind);
    if |head| > BUFFER then None else Some(head + m.data)
  }

  /** binary.ReadUvarint: the value and the number of bytes read, or an error. i counts the bytes already read. */
  function ReadVarint(b: seq<byte>, i: nat): (r: Option<(nat, nat)>)
    ensures r.Some? ==> 1 <= r.value.1 <= |b|
  {
    if i >= MAX_VARINT || b == [] then None
    else if b[0] < 128 then (if i == MAX_VARINT - 1 && b[0] > 1 then None else Some((b[0] as nat, 1)))
    else
      var rest := ReadVarint(b[1..], i + 1);
      if rest.None? then None else Some((b[0] as nat - 128 + 128 * rest.value.0, rest.value.1 + 1))
  }

  function ReadMessage(b: seq<byte>): Option<Message> {
    var id := ReadVarint(b, 0);
    if id.None? then None
    else
      var kind := ReadVarint(b[id.value.1..], 0);
      if kind.None? then None
      else Some(Message(id.value.0, kind.value.0, b[id.value.1 + kind.value.1..]))
  }

  /** Reading undoes writing, for every value that still fits into 64 bits. */
  lemma {:induction false} VarintRoundTrip(x: nat, i: nat, tail: seq<byte>)
    requires i < MAX_VARINT && x < 2 * Pow128(MAX_VARINT - 1 - i)
    ensures ReadVarint(Varint(x) + tail, i) == Some((x, |Varint(x)|))
    decreases x
  {
    var b := Varint(x) + tail;
    if x >= 128 {
      assert b[1..] == Varint(x / 128) + tail;
      VarintRoundTrip(x / 128, i + 1, tail);
    }
  }

  lemma {:induction false} VarintRoundTrip64(x: nat, tail: seq<byte>)
    requires x < UINT64
    ensures ReadVarint(Varint(x) + tail, 0) == Some((x, |Varint(x)|))
  {
    PowValues();
    VarintRoundTrip(x, 0, tail);
  }

  /** Every message that can be framed at all is read back unchanged. */
  lemma FrameRoundTrip(m: Message)
    requires Valid(m) && Frame(m).Some?
    ensures ReadMessage(Frame(m).value) == Some(m)
  {
    var (a, b) := (Varint(m.connectId), Varint(m.kind));
    var bytes := Frame(m).value;
    assert bytes == a + (b + m.data);
    VarintRoundTrip64(m.connectId, b + m.data);
    VarintRoundTrip64(m.kind, m.data);
    assert bytes[|a|..] == b + m.data;
    assert bytes[|a| + |b|..] == m.data;
  }

  /** Message types below 2^42 always fit beside any 64-bit connection id. */
  lemma SmallKindsFit(m: Message)
    requires Valid(m) && m.kind < 0x400_0000_0000
    ensures Frame(m).Some? && ReadMessage(Frame(m).value) == Some(m)
  {
    PowValues();
    VarintLength(m.connectId, 10);
    VarintLength(m.kind, 6);
    FrameRoundTrip(m);
  }

  /** The bound is exact: with a large connection id every larger type overruns the buffer. */
  lemma BoundIsExact(id: nat, kind: nat, data: seq<byte>)
    requires 0x8000_0000_0000_0000 <= id < UINT64 && kind < UINT64
    ensures Frame(Message(id, kind, data)).Some? <==> kind < 0x400_0000_0000
  {
    PowValues();
    VarintLength(id, 9);
    VarintLength(id, 10);
    VarintLength(kind, 6);
  }

  // ---------------------------------------------------------------- as loops over buffers

  /** binary.PutUvarint into the buffer from an offset on; ok is false when the buffer is too short. */
  method PutUvarint(buf: array<byte>, offset: nat, value: nat) returns (ok: bool, n: nat)
    requires offset <= buf.Length
    modifies buf
    ensures ok <==> offset + |Varint(value)| <= buf.Length
    ensures ok ==> n == |Varint(value)| && buf[..offset + n] == old(buf[..offset]) + Varint(value)
  {
    var x := value;
    n := 0;
    ghost var done: seq<byte> := [];
    while x >= 128
      invariant n == |done| && offset + n <= buf.Length
      invariant Varint(value) == done + Varint(x)
      invariant buf[..offset + n] == old(buf[..offset]) + done
      decreases x
    {
      if offset + n >= buf.Length { return false, n; }
      buf[offset + n] := (x % 128 + 128) as byte;
      assert buf[..offset + n + 1] == buf[..offset + n] + [(x % 128 + 128) as byte];
      done := done + [(x % 128 + 128) as byte];
      x := x / 128;
      n := n + 1;
    }
    if offset + n >= buf.Length { return false, n; }
    buf[offset + n] := x as byte;
    assert buf[..offset + n + 1] == buf[..offset + n] + [x as byte];
    n := n + 1;
    ok := true;
  }

  method Bytes(m: Message) returns (r: Option<seq<byte>>)
    ensures r == Frame(m)
  {
    var buf := new byte[BUFFER];
    var ok, n := PutUvarint(buf, 0, m.connectId);
    if !ok { return None; }
    var offset := n;
    assert buf[..offset] == Varint(m.connectId);
    ok, n := PutUvarint(buf, offset, m.kind);
    if !ok { return None; }
    offset := offset + n;
    r := Some(buf[..offset] + m.data);
  }

  /** The outcome of reading on, given what has been accumulated from the first n bytes. */
  ghost function Accumulated(x: nat, scale: nat, n: nat, r: Option<(nat, nat)>): Option<(nat, nat)> {
    if r.None? then None else Some((x + scale * r.value.0, n + r.value.1))
  }

  lemma AccumulateByte(b: seq<byte>, n: nat, x: nat, scale: nat)
    requires n < MAX_VARINT && n < |b| && b[n] >= 128
    ensures Accumulated(x, scale, n, ReadVarint(b[n..], n)) ==
            Accumulated(x + scale * (b[n] as nat - 128), scale * 128, n + 1, ReadVarint(b[n + 1..], n + 1))
  {
    assert b[n..][0] == b[n] && b[n..][1..] == b[n + 1..];
    var r := ReadVarint(b[n + 1..], n + 1);
    if r.Some? {
      Distribute(x, scale, b[n] as nat - 128, r.value.0);
    }
  }

  /** What the byte at n decides when it is the last one, or when there is none. */
  lemma ReadsHere(b: seq<byte>, n: nat, x: nat, scale: nat)
    requires n <= |b|
    ensures n >= MAX_VARINT || n == |b| ==> Accumulated(x, scale, n, ReadVarint(b[n..], n)) == None
    ensures n < MAX_VARINT && n < |b| && b[n] < 128 ==>
              Accumulated(x, scale, n, ReadVarint(b[n..], n)) ==
                if n == MAX_VARINT - 1 && b[n] > 1 then None else Some((x + scale * b[n] as nat, n + 1))
  {
    if n < |b| {
      assert b[n..][0] == b[n];
    }
  }

  lemma Distribute(x: nat, scale: nat, low: nat, high: nat)
    ensures x + scale * (low + 128 * high) == x + scale * low + scale * 128 * high
  {
  }

  /** binary.ReadUvarint with its accumulator and shift. */
  method ReadUvarint(b: seq<byte>) returns (ok: bool, x: nat, n: nat)
    ensures var r := ReadVarint(b, 0); ok == r.Some? && (ok ==> r.value == (x, n))
  {
    x, n, ok := 0, 0, true;
    var scale: nat := 1;
    assert b[0..] == b;
    while true
      invariant 0 <= n <= |b| && ok
      invariant ReadVarint(b, 0) == Accumulated(x, scale, n, ReadVarint(b[n..], n))
      decreases |b| - n
    {
      ReadsHere(b, n, x, scale);
      if n >= MAX_VARINT || n >= |b| {
        return false, x, n;
      }
      var c := b[n];
      if c < 128 {
        if n == MAX_VARINT - 1 && c > 1 { return false, x, n; }
        x := x + scale * c as nat;
        n := n + 1;
        return;
      }
      AccumulateByte(b, n, x, scale);
      x := x + scale * (c as nat - 128);
      scale := scale * 128;
      n := n + 1;
    }
  }

  // ---------------------------------------------------------------- the wire format

  /** The number spelt by the low seven bits of each byte, the first byte being the least significant. */
  ghost function LowFirst(b: seq<byte>): nat {
    if b == [] then 0 else LowFirst(b[..|b| - 1]) + (b[|b| - 1] as nat % 128) * Pow128(|b| - 1)
  }

  lemma ShiftTerm(v: nat, n: nat)
    requires n > 0
    ensures v * Pow128(n) == 128 * (v * Pow128(n - 1))
  {
    var p := Pow128(n - 1);
    assert Pow128(n) == 128 * p;
    assert v * (128 * p) == 128 * (v * p);
  }

  lemma {:induction false} LowFirstCons(h: byte, t: seq<byte>)
    ensures LowFirst([h] + t) == h as nat % 128 + 128 * LowFirst(t)
    decreases |t|
  {
    var b := [h] + t;
    if t == [] {
      assert b[..0] == [] && b[0] == h;
    } else {
      var (init, last) := (t[..|t| - 1], t[|t| - 1]);
      assert b[..|b| - 1] == [h] + init;
      LowFirstCons(h, init);
      ShiftTerm(last as nat % 128, |t|);
    }
  }

  /** The wire format of a number: seven bits a byte, least significant first, the high bit set on all but the last byte. */
  lemma {:induction false} VarintFormat(x: nat)
    ensures LowFirst(Varint(x)) == x
    ensures forall i :: 0 <= i < |Varint(x)| ==> (Varint(x)[i] >= 128 <==> i < |Varint(x)| - 1)
  {
    if x < 128 {
      assert [x as byte][..0] == [];
    } else {
      VarintFormat(x / 128);
      LowFirstCons((x % 128 + 128) as byte, Varint(x / 128));
    }
  }

  /** A frame is the id, then the type, then the data. */
  lemma FrameLayout(m: Message)
    requires Frame(m).Some?
    ensures var (f, id, kind) := (Frame(m).value, Varint(m.connectId), Varint(m.kind));
            |id| + |kind| <= 16 && id <= f && kind <= f[|id|..] && f[|id| + |kind|..] == m.data
  {
  }
}
