/**
 The multipart codec (ZeroMQ RFC 50): each part is a size and its bytes; a size below
 255 takes one byte, a larger one the byte 255 and four bytes in network order.
 */
module Multipart {
  import opened Text

  newtype byte = b: int | 0 <= b < 256

  type Bytes = seq<byte>

  const UINT32_LIMIT: nat := 0x1_0000_0000

  // ---- Sizes in network order ---------------------------------------------------------------

  /** `write_network_order`. */
  function Order(value: nat): (r: Bytes)
    requires value < UINT32_LIMIT
    ensures |r| == 4
  {
    [(value / 0x100_0000) as byte, (value / 0x1_0000 % 256) as byte, (value / 256 % 256) as byte, (value % 256) as byte]
  }

  /** `read_u32_network_order`. */
  function ReadOrder(b: Bytes): (value: nat)
    requires |b| == 4
    ensures value < UINT32_LIMIT
  {
    b[0] as int * 0x100_0000 + b[1] as int * 0x1_0000 + b[2] as int * 256 + b[3] as int
  }

  lemma OrderBack(value: nat)
    requires value < UINT32_LIMIT
    ensures ReadOrder(Order(value)) == value
  {
    var a, b, c := value / 0x100_0000, value / 0x1_0000, value / 256;
    assert value == c * 256 + value % 256;
    assert c == b * 256 + c % 256 by { assert value / 256 / 256 == value / 0x1_0000; }
    assert b == a * 256 + b % 256 by { assert value / 0x1_0000 / 256 == value / 0x100_0000; }
  }

  // ---- Encoding -----------------------------------------------------------------------------

  predicate Encodable(parts: seq<Bytes>) {
    forall p :: p in parts ==> |p| < UINT32_LIMIT
  }

  function Header(size: nat): Bytes
    requires size < UINT32_LIMIT
  {
    if size < 255 then [size as byte] else [255] + Order(size)
  }

  function EncodePart(part: Bytes): Bytes
    requires |part| < UINT32_LIMIT
  {
    Header(|part|) + part
  }

  /** `None` where the source throws: some part is too large for its size field. */
  function Encode(parts: seq<Bytes>): (r: Option<Bytes>)
    ensures r.Some? <==> Encodable(parts)
  {
    if parts == [] then Some([])
    else
      var n := |parts| - 1;
      assert parts == parts[..n] + [parts[n]];
      var before := Encode(parts[..n]);
      if before.None? || |parts[n]| >= UINT32_LIMIT then None
      else Some(before.value + EncodePart(parts[n]))
  }

  lemma EncodeStep(parts: seq<Bytes>, i: nat)
    requires i < |parts| && Encode(parts[..i]).Some? && |parts[i]| < UINT32_LIMIT
    ensures Encode(parts[..i + 1]) == Some(Encode(parts[..i]).value + EncodePart(parts[i]))
  {
    assert parts[..i + 1][..i] == parts[..i];
    hide EncodePart;
  }

  lemma EncodeNothing(parts: seq<Bytes>)
    ensures Encode(parts[..0]) == Some([])
  {
  }

  /** The first pass of `encode`: the size of the result, or nothing if a part is too large. */
  method MeasureParts(parts: seq<Bytes>) returns (total: Option<nat>)
    ensures total == if Encode(parts).None? then None else Some(|Encode(parts).value|)
  {
    var sum := 0;
    for i := 0 to |parts|
      invariant Encode(parts[..i]).Some? && sum == |Encode(parts[..i]).value|
    {
      if |parts[i]| >= UINT32_LIMIT {
        TooLarge(parts, i);
        return None;
      }
      EncodeStep(parts, i);
      hide Encode, Order;
      var countSize := if |parts[i]| < 255 then 1 else 5;
      sum := sum + |parts[i]| + countSize;
    }
    assert parts[..|parts|] == parts;
    total := Some(sum);
  }

  /** The two passes of `encode`: check and add up the sizes, then fill the buffer. */
  method EncodeInto(parts: seq<Bytes>) returns (r: Option<Bytes>)
    ensures r == Encode(parts)
  {
    hide Encode, Header, Order;
    var total := MeasureParts(parts);
    if total.None? {
      return None;
    }
    EncodeNothing(parts);
    var buffer := new byte[total.value];
    var at := 0;
    for i := 0 to |parts|
      invariant at <= total.value == buffer.Length
      invariant Encode(parts[..i]).Some? && buffer[..at] == Encode(parts[..i]).value
    {
      assert parts[i] in parts;
      EncodeStep(parts, i);
      PrefixLength(parts, i + 1);
      ghost var before := buffer[..at];
      at := Copy(buffer, at, Header(|parts[i]|));
      at := Copy(buffer, at, parts[i]);
      assert buffer[..at] == before + EncodePart(parts[i]);
    }
    assert parts[..|parts|] == parts;
    assert buffer[..] == buffer[..at];
    r := Some(buffer[..]);
  }

  /** `memcpy` into the buffer at `at`. */
  method Copy(buffer: array<byte>, at: nat, data: Bytes) returns (end: nat)
    requires at + |data| <= buffer.Length
    modifies buffer
    ensures end == at + |data|
    ensures buffer[..end] == old(buffer[..at]) + data
  {
    for k := 0 to |data|
      invariant buffer[..at + k] == old(buffer[..at]) + data[..k]
    {
      buffer[at + k] := data[k];
      assert buffer[..at + k + 1] == buffer[..at + k] + [data[k]];
    }
    assert data[..|data|] == data;
    end := at + |data|;
  }

  lemma {:induction false} TooLarge(parts: seq<Bytes>, i: nat)
    requires i < |parts| && |parts[i]| >= UINT32_LIMIT
    ensures Encode(parts).None?
  {
    assert parts[i] in parts;
  }

  lemma {:induction false} PrefixLength(parts: seq<Bytes>, i: nat)
    requires i <= |parts| && Encodable(parts)
    ensures Encode(parts[..i]).Some? && |Encode(parts[..i]).value| <= |Encode(parts).value|
    decreases |parts|
  {
    if i < |parts| {
      var n := |parts| - 1;
      PrefixLength(parts[..n], i);
      assert parts[..n][..i] == parts[..i];
    } else {
      assert parts[..i] == parts;
    }
  }

  // ---- Decoding -----------------------------------------------------------------------------

  /** The size of the first part and where its bytes begin; `None` if the size is cut off. */
  function ReadHeader(source: Bytes): (r: Option<(nat, nat)>)
    requires source != []
    ensures r.Some? ==> 1 <= r.value.1 <= |source|
  {
    if source[0] != 255 then Some((source[0] as nat, 1))
    else if |source| < 5 then None
    else Some((ReadOrder(source[1..5]), 5))
  }

  /** `None` where the source throws. */
  function Decode(source: Bytes): Option<seq<Bytes>>
    decreases |source|
  {
    if source == [] then Some([])
    else
      var header := ReadHeader(source);
      if header.None? || |source| - header.value.1 < header.value.0 then None
      else
        var (size, start) := header.value;
        var rest := Decode(source[start + size..]);
        if rest.None? then None else Some([source[start..start + size]] + rest.value)
  }

  function Prepend(part: Bytes, rest: Option<seq<Bytes>>): Option<seq<Bytes>> {
    if rest.None? then None else Some([part] + rest.value)
  }

  function Behind(parts: seq<Bytes>, rest: Option<seq<Bytes>>): Option<seq<Bytes>> {
    if rest.None? then None else Some(parts + rest.value)
  }

  /** One step of decoding, in terms of indices into the message. */
  lemma DecodeStep(encoded: Bytes, at: nat, size: nat, start: nat)
    requires at < start <= |encoded| && ReadHeader(encoded[at..]) == Some((size, start - at))
    ensures Decode(encoded[at..]) ==
      if |encoded| - start < size then None
      else Prepend(encoded[start..start + size], Decode(encoded[start + size..]))
  {
    hide ReadHeader;
    if |encoded| - start >= size {
      var before := encoded[at..];
      assert before[start - at + size..] == encoded[start + size..];
      assert before[start - at..start - at + size] == encoded[start..start + size];
    }
  }

  /** The header at `at`: its size field and where the bytes begin. */
  method TakeHeader(encoded: Bytes, at: nat) returns (header: Option<(nat, nat)>)
    requires at < |encoded|
    ensures header == match ReadHeader(encoded[at..]) case None => None case Some(h) => Some((h.0, at + h.1))
  {
    hide ReadOrder;
    var size := encoded[at] as nat;
    var start := at + 1;
    if size == 255 {
      if |encoded| - start < 4 {
        return None;
      }
      assert encoded[at..][1..5] == encoded[start..start + 4];
      size := ReadOrder(encoded[start..start + 4]);
      start := start + 4;
    }
    header := Some((size, start));
  }

  /** The loop of `decode`, which moves a pointer through the message. */
  method DecodeFrom(encoded: Bytes) returns (parts: Option<seq<Bytes>>)
    ensures parts == Decode(encoded)
  {
    hide Decode, ReadHeader;
    var out: seq<Bytes> := [];
    var at := 0;
    assert encoded[0..] == encoded;
    NothingBefore(encoded);
    while at < |encoded|
      invariant at <= |encoded|
      invariant Decode(encoded) == Behind(out, Decode(encoded[at..]))
    {
      var header := TakeHeader(encoded, at);
      if header.None? {
        NoHeader(encoded[at..]);
        return None;
      }
      var (size, start) := header.value;
      DecodeStep(encoded, at, size, start);
      if |encoded| - start < size {
        return None;
      }
      ghost var rest := Decode(encoded[start + size..]);
      var part := encoded[start..start + size];
      assert rest.Some? ==> out + ([part] + rest.value) == out + [part] + rest.value;
      out := out + [part];
      at := start + size;
    }
    assert encoded[at..] == [];
    EndReached(out);
    parts := Some(out);
  }

  lemma NothingBefore(encoded: Bytes)
    ensures Behind([], Decode(encoded)) == Decode(encoded)
  {
    hide Decode;
    if Decode(encoded).Some? {
      assert [] + Decode(encoded).value == Decode(encoded).value;
    }
  }

  lemma EndReached(out: seq<Bytes>)
    ensures Behind(out, Decode([])) == Some(out)
  {
    assert out + [] == out;
  }

  lemma NoHeader(source: Bytes)
    requires source != [] && ReadHeader(source).None?
    ensures Decode(source).None?
  {
  }

  // ---- Properties -----------------------------------------------------------------------------

  lemma HeaderBack(part: Bytes, rest: Bytes)
    requires |part| < UINT32_LIMIT
    ensures ReadHeader(EncodePart(part) + rest) == Some((|part|, |Header(|part|)|))
  {
    var source := EncodePart(part) + rest;
    if |part| >= 255 {
      assert source[1..5] == Order(|part|);
      OrderBack(|part|);
    }
  }

  /** One encoded part in front of anything is decoded as that part and the rest. */
  lemma PartBack(part: Bytes, rest: Bytes)
    requires |part| < UINT32_LIMIT
    ensures Decode(EncodePart(part) + rest) == Prepend(part, Decode(rest))
  {
    HeaderBack(part, rest);
    var source := EncodePart(part) + rest;
    var start := |Header(|part|)|;
    assert source[start..start + |part|] == part && source[start + |part|..] == rest;
    hide Header, ReadHeader;
  }

  /** Anything behind an encoding is decoded behind its parts. */
  lemma {:induction false} DecodeBehind(parts: seq<Bytes>, rest: Bytes)
    requires Encodable(parts)
    ensures Decode(Encode(parts).value + rest) == Behind(parts, Decode(rest))
    decreases |parts|
  {
    hide EncodePart, Decode;
    if parts == [] {
      assert [] + rest == rest;
      assert Decode(rest).Some? ==> parts + Decode(rest).value == Decode(rest).value;
    } else {
      var n := |parts| - 1;
      assert parts == parts[..n] + [parts[n]];
      var part := EncodePart(parts[n]);
      assert Encode(parts).value + rest == Encode(parts[..n]).value + (part + rest);
      DecodeBehind(parts[..n], part + rest);
      PartBack(parts[n], rest);
      assert Decode(rest).Some? ==>
        parts[..n] + ([parts[n]] + Decode(rest).value) == parts + Decode(rest).value;
    }
  }

  /** `decode(encode(ps)) == ps`. */
  lemma {:induction false} DecodeInvertsEncode(parts: seq<Bytes>)
    requires Encodable(parts)
    ensures Decode(Encode(parts).value) == Some(parts)
  {
    DecodeBehind(parts, []);
    assert Encode(parts).value + [] == Encode(parts).value;
    assert parts + [] == parts;
  }

  /** Encodings can be concatenated. */
  lemma {:induction false} EncodingsConcatenate(a: seq<Bytes>, b: seq<Bytes>)
    requires Encodable(a) && Encodable(b)
    ensures Decode(Encode(a).value + Encode(b).value) == Some(a + b)
  {
    DecodeBehind(a, Encode(b).value);
    DecodeInvertsEncode(b);
  }

  lemma {:induction false} EncodeFront(part: Bytes, parts: seq<Bytes>)
    requires |part| < UINT32_LIMIT && Encodable(parts)
    ensures Encodable([part] + parts)
    ensures Encode([part] + parts).value == EncodePart(part) + Encode(parts).value
    decreases |parts|
  {
    hide EncodePart;
    var all := [part] + parts;
    assert Encodable(all);
    if parts == [] {
      assert all[..0] == [];
    } else {
      var n := |parts| - 1;
      assert all[..n + 1] == [part] + parts[..n];
      EncodeFront(part, parts[..n]);
    }
  }

  /**
   Any accepted input is consumed to its end: it is as long as the encoding of its parts,
   except for sizes below 255 written with five bytes.  Its parts can be encoded again,
   in no more bytes, and decode to the same parts.
   */
  lemma {:induction false} AcceptedInputsAreEncodings(source: Bytes)
    requires Decode(source).Some?
    ensures var parts := Decode(source).value;
            && Encodable(parts) && Decode(Encode(parts).value) == Some(parts)
            && |Encode(parts).value| <= |source| <= |Encode(parts).value| + 4 * |parts|
    decreases |source|
  {
    var parts := Decode(source).value;
    if source != [] {
      var (size, start) := ReadHeader(source).value;
      AcceptedInputsAreEncodings(source[start + size..]);
      HeaderIsShort(source);
      hide ReadHeader, Encode;
      EncodeFront(parts[0], parts[1..]);
      assert [parts[0]] + parts[1..] == parts;
    }
    DecodeInvertsEncode(parts);
  }

  lemma HeaderIsShort(source: Bytes)
    requires source != [] && ReadHeader(source).Some?
    ensures var (size, start) := ReadHeader(source).value;
            size < UINT32_LIMIT && |Header(size)| <= start <= |Header(size)| + 4
  {
  }

  /** The layout of ZeroMQ RFC 50: one size byte below 255, else 255 and the size, most significant byte first. */
  lemma PartLayout(part: Bytes)
    requires |part| < 0x1_0000_0000
    ensures var e := EncodePart(part);
            if |part| < 255 then |e| == 1 + |part| && e[0] as int == |part| && e[1..] == part
            else
              && |e| == 5 + |part| && e[0] == 255 && e[5..] == part
              && |part| == ((e[1] as int * 256 + e[2] as int) * 256 + e[3] as int) * 256 + e[4] as int
  {
    if |part| >= 255 {
      OrderBack(|part|);
    }
  }

  /** An encoding is the layouts of its parts, one after the other. */
  lemma {:induction false} EncodingIsLayouts(parts: seq<Bytes>, part: Bytes)
    requires Encodable(parts + [part])
    ensures Encodable(parts) && |part| < 0x1_0000_0000
    ensures Encode(parts + [part]).value == Encode(parts).value + EncodePart(part)
  {
    var all := parts + [part];
    assert all[..|parts|] == parts && all[|parts|] in all;
    assert forall p :: p in parts ==> p in all;
  }

  /** A decoder must also take a size below 255 written with five bytes. */
  lemma FiveByteSize(part: Bytes, rest: Bytes)
    requires |part| < 0x1_0000_0000
    ensures Decode([255] + Order(|part|) + part + rest) == Prepend(part, Decode(rest))
  {
    var source := [255] + Order(|part|) + part + rest;
    assert source[1..5] == Order(|part|);
    OrderBack(|part|);
    assert source[5..5 + |part|] == part && source[5 + |part|..] == rest;
    hide Order, ReadOrder;
  }

  /** The size of the first part and the number of bytes before its own, read off the first bytes. */
  predicate SizeIs(source: Bytes, size: nat, start: nat) {
    source != [] &&
      if source[0] != 255 then size == source[0] as int && start == 1
      else
        && |source| >= 5 && start == 5
        && size == ((source[1] as int * 256 + source[2] as int) * 256 + source[3] as int) * 256 + source[4] as int
  }

  lemma SizeIff(source: Bytes, size: nat, start: nat)
    requires source != []
    ensures SizeIs(source, size, start) <==> ReadHeader(source) == Some((size, start))
  {
    if source[0] == 255 && |source| >= 5 {
      var four := source[1..5];
      assert four[0] == source[1] && four[1] == source[2] && four[2] == source[3] && four[3] == source[4];
    }
  }

  /**
   A message that is not empty is accepted exactly when its first size is whole and announces no
   more bytes than there are, and what follows these bytes is accepted.
   */
  lemma AcceptedIff(source: Bytes)
    requires source != []
    ensures Decode(source).Some? <==>
              exists size: nat, start: nat :: SizeIs(source, size, start) && start + size <= |source|
                && Decode(source[start + size..]).Some?
  {
    hide ReadHeader, SizeIs;
    var header := ReadHeader(source);
    if header.Some? {
      SizeIff(source, header.value.0, header.value.1);
    }
    forall size: nat, start: nat | SizeIs(source, size, start)
      ensures header == Some((size, start))
    {
      SizeIff(source, size, start);
    }
  }
}
