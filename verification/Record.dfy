/** The on-disk record format: encoder, decoder, and the laws that tie them together. */
module Records {
  import opened Bytes
  import Crc32c
  import Seqs

  const MAGIC: byte := 1
  const MIN_PAYLOAD: nat := 25            // magic, offset, timestamp, two length fields
  const MAX_PAYLOAD: nat := 0x400_0000    // 64 MiB

  datatype Record = Record(offset: int64, timestamp: int64, key: seq<byte>, value: seq<byte>)

  datatype Error = Corrupt | BadMagic | UnexpectedEOF

  /** `Panicked` is the Go runtime's slice-bounds panic, not an error value. */
  datatype DecodeResult = Decoded(rec: Record, n: nat) | EndOfFile | Rejected(error: Error) | Panicked

  function PayloadSize(r: Record): nat {
    MIN_PAYLOAD + |r.key| + |r.value|
  }

  function EncodedSize(r: Record): nat {
    8 + PayloadSize(r)
  }

  /** A record the decoder will take back; nothing on the append path checks this. */
  predicate Storable(r: Record) {
    PayloadSize(r) <= MAX_PAYLOAD
  }

  /** A record whose payload length fits the four-byte size field at all. */
  predicate Sized(r: Record) {
    PayloadSize(r) < TWO_32
  }

  /** A zero timestamp is replaced by the clock when the record is written. */
  function Stamp(r: Record, now: int64): Record {
    if r.timestamp == 0 then r.(timestamp := now) else r
  }

  function Payload(r: Record): (s: seq<byte>)
    ensures |s| == PayloadSize(r)
  {
    [MAGIC] + PutI64(r.offset) + PutI64(r.timestamp) + PutU32(|r.key|) + r.key + PutU32(|r.value|) + r.value
  }

  /** The bytes the checksum covers. */
  function Body(r: Record): seq<byte> {
    PutU32(PayloadSize(r)) + Payload(r)
  }

  function Encoding(r: Record): (s: seq<byte>)
    ensures |s| == EncodedSize(r)
  {
    PutU32(Crc32c.Checksum(Body(r))) + Body(r)
  }

  /** Splits a payload whose checksum already matched. The key-length guard is uint32 arithmetic
      and wraps, so key lengths within 25 of 2^32 pass it and the slice expression panics. */
  function DecodePayload(p: seq<byte>): (d: DecodeResult)
    requires MIN_PAYLOAD <= |p| <= MAX_PAYLOAD
    ensures d.Decoded? ==> d.n == 8 + |p|
    ensures !d.EndOfFile?
  {
    if p[0] != MAGIC then Rejected(BadMagic)
    else
      var keyLen := GetU32(p[17..21]);
      if (25 + keyLen) % TWO_32 > |p| then Rejected(Corrupt)
      else
        var hi := (21 + keyLen) % TWO_32;
        if hi < 21 || hi > |p| then Panicked
        else
          var valOff := 21 + keyLen;
          var valLen := GetU32(p[valOff..valOff + 4]);
          if valOff + 4 + valLen != |p| then Rejected(Corrupt)
          else Decoded(Record(GetI64(p[1..9]), GetI64(p[9..17]), p[21..valOff], p[valOff + 4..]), 8 + |p|)
  }

  /** The decoder's answer on a stream holding exactly the bytes `s`. */
  function DecodeBytes(s: seq<byte>): (d: DecodeResult)
    ensures d.Decoded? ==> 33 <= d.n <= |s|
    ensures d.EndOfFile? <==> |s| == 0
  {
    if |s| == 0 then EndOfFile
    else if |s| < 8 then Rejected(UnexpectedEOF)
    else
      var size := GetU32(s[4..8]);
      if size < MIN_PAYLOAD || size > MAX_PAYLOAD || |s| < 8 + size then Rejected(Corrupt)
      else if Crc32c.Checksum(s[4..8 + size]) != GetU32(s[..4]) then Rejected(Corrupt)
      else DecodePayload(s[8..8 + size])
  }

  // ---------------------------------------------------------------------------------------------
  // Encoder
  // ---------------------------------------------------------------------------------------------

  method CopyInto(buf: array<byte>, off: nat, src: seq<byte>)
    requires off + |src| <= buf.Length
    modifies buf
    ensures buf[..off + |src|] == old(buf[..off]) + src
    ensures buf[off + |src|..] == old(buf[off + |src|..])
  {
    forall i | 0 <= i < |src| {
      buf[off + i] := src[i];
    }
  }

  method PutUint32(buf: array<byte>, off: nat, n: int)
    requires off + 4 <= buf.Length
    modifies buf
    ensures buf[..off + 4] == old(buf[..off]) + PutU32(n)
    ensures buf[off + 4..] == old(buf[off + 4..])
  {
    CopyInto(buf, off, PutU32(n));
  }

  /** Fills `buf` field by field; the checksum goes in last, over everything after it. */
  method Encode(r: Record, now: int64) returns (buf: array<byte>)
    ensures fresh(buf)
    ensures buf[..] == Encoding(Stamp(r, now))
    ensures r.timestamp != 0 ==> buf[..] == Encoding(r)
    ensures r.timestamp == 0 ==> buf[..] == Encoding(Record(r.offset, now, r.key, r.value))
  {
    hide PutU32, PutI64, Payload;
    var rec := Stamp(r, now);
    var keyLen, valLen := |rec.key|, |rec.value|;
    var size := 1 + 8 + 8 + 4 + keyLen + 4 + valLen;
    buf := new byte[8 + size](_ => 0);
    PutUint32(buf, 4, size);
    ghost var head := buf[..4];
    EncodePayload(buf, rec);
    assert buf[4..] == Body(rec) by {
      assert buf[..] == head + PutU32(size) + Payload(rec);
    }
    var crc := Crc32c.Checksum(buf[4..]);
    ghost var body := buf[4..];
    PutUint32(buf, 0, crc);
    assert buf[..] == buf[..4] + buf[4..];
  }

  method EncodePayload(buf: array<byte>, rec: Record)
    requires buf.Length == EncodedSize(rec)
    modifies buf
    ensures buf[..] == old(buf[..8]) + Payload(rec)
  {
    hide PutU32, GetU32, PutI64, GetI64;
    ghost var head := buf[..8];
    CopyInto(buf, 8, [MAGIC]);
    CopyInto(buf, 9, PutI64(rec.offset));
    CopyInto(buf, 17, PutI64(rec.timestamp));
    PutUint32(buf, 25, |rec.key|);
    ghost var fixed := [MAGIC] + PutI64(rec.offset) + PutI64(rec.timestamp) + PutU32(|rec.key|);
    assert buf[..29] == head + fixed;
    CopyInto(buf, 29, rec.key);
    var off := 29 + |rec.key|;
    assert buf[..off] == head + (fixed + rec.key);
    PutUint32(buf, off, |rec.value|);
    assert buf[..off + 4] == head + (fixed + rec.key + PutU32(|rec.value|));
    CopyInto(buf, off + 4, rec.value);
    assert buf[..off + 4 + |rec.value|] == head + Payload(rec);
    assert buf[..] == buf[..off + 4 + |rec.value|];
  }

  // ---------------------------------------------------------------------------------------------
  // Decoder
  // ---------------------------------------------------------------------------------------------

  datatype ReadError = NoError | Eof | ShortRead

  /** A byte source. `exact` selects io.ReadFull's report of a short read (unexpected EOF) over
      ReaderAt's (plain EOF with a count); the decoder is used with both. */
  class Reader {
    const data: seq<byte>
    const exact: bool
    var pos: nat

    constructor (data: seq<byte>, pos: nat, exact: bool)
      requires pos <= |data|
      ensures this.data == data && this.pos == pos && this.exact == exact
    {
      this.data, this.pos, this.exact := data, pos, exact;
    }

    predicate Valid()
      reads this
    {
      pos <= |data|
    }

    method Read(p: array<byte>, at: nat) returns (c: nat, err: ReadError)
      requires Valid() && at <= p.Length
      modifies p, this
      ensures Valid()
      ensures c == if p.Length - at <= |data| - old(pos) then p.Length - at else |data| - old(pos)
      ensures pos == old(pos) + c
      ensures p[..] == old(p[..at]) + data[old(pos)..pos] + old(p[at + c..])
      ensures err == if c == p.Length - at then NoError else if c > 0 && exact then ShortRead else Eof
    {
      c := if p.Length - at <= |data| - pos then p.Length - at else |data| - pos;
      CopyInto(p, at, data[pos..pos + c]);
      assert p[..] == p[..at + c] + p[at + c..];
      pos := pos + c;
      err := if c == p.Length - at then NoError else if c > 0 && exact then ShortRead else Eof;
    }
  }

  method ReadFull(r: Reader, p: array<byte>) returns (n: nat, err: ReadError)
    requires r.Valid()
    modifies r, p
    ensures r.Valid()
    ensures err == if p.Length <= |r.data| - old(r.pos) then NoError
                   else if old(r.pos) < |r.data| then ShortRead else Eof
    ensures err == NoError ==> r.pos == old(r.pos) + p.Length && p[..] == r.data[old(r.pos)..r.pos]
  {
    n := 0;
    while n < p.Length
      invariant r.Valid() && n <= p.Length && r.pos == old(r.pos) + n
      invariant p[..n] == r.data[old(r.pos)..r.pos]
    {
      var c, e := r.Read(p, n);
      n := n + c;
      if e != NoError {
        return n, if n > 0 && e == Eof then ShortRead else e;
      }
    }
    err := NoError;
  }

  method Decode(r: Reader) returns (res: DecodeResult)
    requires r.Valid()
    modifies r
    ensures r.Valid()
    ensures res == DecodeBytes(r.data[old(r.pos)..])
    ensures res.Decoded? ==> r.pos == old(r.pos) + res.n
  {
    hide PutU32, GetU32, PutI64, GetI64;
    ghost var s := r.data[r.pos..];
    var hdr := new byte[8](_ => 0);
    var n, err := ReadFull(r, hdr);
    if err != NoError {
      return if err == Eof then EndOfFile else Rejected(UnexpectedEOF);
    }
    assert hdr[..] == s[..8];
    var wantCRC := GetU32(hdr[0..4]);
    var size := GetU32(hdr[4..8]);
    assert hdr[0..4] == s[..4] && hdr[4..8] == s[4..8];
    if size < 1 + 8 + 8 + 4 + 4 || size > MAX_PAYLOAD {
      return Rejected(Corrupt);
    }
    var payload := new byte[size](_ => 0);
    n, err := ReadFull(r, payload);
    if err != NoError {
      return Rejected(Corrupt);
    }
    assert payload[..] == s[8..8 + size];
    var crcInput := hdr[4..8] + payload[..];
    assert crcInput == s[4..8 + size];
    var got := Crc32c.Checksum(crcInput);
    if got != wantCRC {
      return Rejected(Corrupt);
    }
    res := SplitPayload(payload);
  }

  /** The field-splitting half of the decoder, after the checksum has matched. */
  method SplitPayload(payload: array<byte>) returns (res: DecodeResult)
    requires MIN_PAYLOAD <= payload.Length <= MAX_PAYLOAD
    ensures res == DecodePayload(payload[..])
  {
    hide PutU32, GetU32, PutI64, GetI64;
    ghost var p := payload[..];
    if payload[0] != MAGIC {
      return Rejected(BadMagic);
    }
    var keyLen := GetU32(payload[17..21]);
    assert payload[17..21] == p[17..21];
    if (21 + keyLen + 4) % TWO_32 > payload.Length {
      return Rejected(Corrupt);
    }
    var keyEnd := (21 + keyLen) % TWO_32;
    if keyEnd < 21 || keyEnd > payload.Length {
      return Panicked;
    }
    var key := payload[21..keyEnd];
    var valOff := 21 + keyLen;
    var valLen := GetU32(payload[valOff..valOff + 4]);
    assert payload[valOff..valOff + 4] == p[valOff..valOff + 4];
    if valOff + 4 + valLen != payload.Length {
      return Rejected(Corrupt);
    }
    var value := payload[valOff + 4..valOff + 4 + valLen];
    assert payload[1..9] == p[1..9] && payload[9..17] == p[9..17];
    return Decoded(Record(GetI64(payload[1..9]), GetI64(payload[9..17]), key, value), 8 + payload.Length);
  }

  /** The bytes of a file from a position on; past its end there is nothing to read. */
  function Tail(file: seq<byte>, pos: nat): seq<byte> {
    if pos <= |file| then file[pos..] else []
  }

  /** Decodes at a position of a file without moving the file's own offset. */
  method DecodeAt(file: seq<byte>, off: nat) returns (res: DecodeResult)
    ensures res == DecodeBytes(Tail(file, off))
  {
    var r := new Reader(Tail(file, off), 0, false);
    assert r.data[0..] == r.data;
    res := Decode(r);
  }

  // ---------------------------------------------------------------------------------------------
  // Codec laws
  // ---------------------------------------------------------------------------------------------

  /** Payload fields sit at fixed positions. */
  lemma PayloadFields(r: Record)
    ensures var p := Payload(r);
            && p[0] == MAGIC && p[1..9] == PutI64(r.offset) && p[9..17] == PutI64(r.timestamp)
            && p[17..21] == PutU32(|r.key|) && p[21..21 + |r.key|] == r.key
            && p[21 + |r.key|..25 + |r.key|] == PutU32(|r.value|) && p[25 + |r.key|..] == r.value
  {
    hide Crc32c.Checksum, PutU32, GetU32, PutI64, GetI64;
  }

  lemma EncodingFields(r: Record, tail: seq<byte>)
    ensures var s := Encoding(r) + tail;
            && s[..4] == PutU32(Crc32c.Checksum(Body(r))) && s[4..8] == PutU32(PayloadSize(r))
            && s[4..EncodedSize(r)] == Body(r) && s[8..EncodedSize(r)] == Payload(r)
  {
    hide Crc32c.Checksum, PutU32, GetU32, PutI64, GetI64;
    var s := Encoding(r) + tail;
    assert s[4..8] == Body(r)[..4];
    assert s[8..EncodedSize(r)] == Body(r)[4..];
  }

  lemma PayloadRoundTrip(r: Record)
    requires Storable(r)
    ensures DecodePayload(Payload(r)) == Decoded(r, EncodedSize(r))
  {
    hide Crc32c.Checksum, PutU32, GetU32, PutI64, GetI64;
    PayloadFields(r);
    GetPutU32(|r.key|);
    GetPutU32(|r.value|);
    GetPutI64(r.offset);
    GetPutI64(r.timestamp);
  }

  /** Decoding an encoding gives the record back, whatever follows it, exactly when its payload is at
      most 64 MiB. Beyond that it is an error as long as the length fits the size field at all. */
  lemma DecodeEncoding(r: Record, tail: seq<byte>)
    ensures DecodeBytes(Encoding(r) + tail) == Decoded(r, EncodedSize(r)) <==> Storable(r)
    ensures Sized(r) && !Storable(r) ==> DecodeBytes(Encoding(r) + tail) == Rejected(Corrupt)
  {
    if Sized(r) {
      DecodeSized(r, tail);
    } else {
      SizeLimit(Encoding(r) + tail);
    }
  }

  lemma DecodeSized(r: Record, tail: seq<byte>)
    requires Sized(r)
    ensures DecodeBytes(Encoding(r) + tail) == if Storable(r) then Decoded(r, EncodedSize(r)) else Rejected(Corrupt)
  {
    hide Crc32c.Checksum, PutU32, GetU32, PutI64, GetI64;
    var s := Encoding(r) + tail;
    EncodingFields(r, tail);
    GetPutU32(Crc32c.Checksum(Body(r)));
    GetPutU32(PayloadSize(r));
    if Storable(r) {
      PayloadRoundTrip(r);
    }
  }

  /** No answer is longer than the limit. */
  lemma SizeLimit(s: seq<byte>)
    ensures DecodeBytes(s).Decoded? ==> DecodeBytes(s).n <= 8 + MAX_PAYLOAD
  {
    hide Crc32c.Checksum, GetU32;
  }

  /** Whatever the decoder accepts is, byte for byte, the encoding of the record it returns. */
  lemma EncodingDecode(s: seq<byte>)
    requires DecodeBytes(s).Decoded?
    ensures var d := DecodeBytes(s);
            Storable(d.rec) && d.n == EncodedSize(d.rec) <= |s| && s[..d.n] == Encoding(d.rec)
  {
    hide Crc32c.Checksum, PutU32, GetU32, PutI64, GetI64;
    var d := DecodeBytes(s);
    var size := GetU32(s[4..8]);
    var p := s[8..8 + size];
    var r := d.rec;
    var k := |r.key|;
    PutGetU32(p[17..21]);
    PutGetU32(p[21 + k..25 + k]);
    PutGetI64(p[1..9]);
    PutGetI64(p[9..17]);
    assert p == [p[0]] + p[1..9] + p[9..17] + p[17..21] + p[21..21 + k] + p[21 + k..25 + k] + p[25 + k..];
    assert Payload(r) == p;
    PutGetU32(s[4..8]);
    assert Body(r) == s[4..8 + size];
    PutGetU32(s[..4]);
    assert s[..d.n] == s[..4] + s[4..8 + size];
  }

  /** A torn write is never taken for the record. As long as the record's length fits the size field,
      it is an error, so neither another record nor a clean end of file, and does not panic. */
  lemma PrefixRejected(r: Record, k: nat)
    requires 0 < k < EncodedSize(r)
    ensures Sized(r) ==> DecodeBytes(Encoding(r)[..k]).Rejected?
    ensures forall n :: DecodeBytes(Encoding(r)[..k]) != Decoded(r, n)
  {
    hide Crc32c.Checksum, PutU32, GetU32, PutI64, GetI64;
    var s := Encoding(r)[..k];
    if Sized(r) && 8 <= k {
      EncodingFields(r, []);
      assert Encoding(r) + [] == Encoding(r);
      assert s[4..8] == PutU32(PayloadSize(r));
      GetPutU32(PayloadSize(r));
    }
    hide DecodeBytes;
    if DecodeBytes(s).Decoded? {
      EncodingDecode(s);
    }
  }

  /** Exactly the inputs on which the decoder panics: header, checksum and magic are right, and the
      key length is one of the last 25 values of uint32. */
  lemma PanicsExactly(s: seq<byte>)
    ensures DecodeBytes(s).Panicked? <==>
            && |s| >= 8 && var size := GetU32(s[4..8]);
            && MIN_PAYLOAD <= size <= MAX_PAYLOAD && 8 + size <= |s|
            && Crc32c.Checksum(s[4..8 + size]) == GetU32(s[..4]) && s[8] == MAGIC
            && GetU32(s[25..29]) >= TWO_32 - 25
  {
    hide Crc32c.Checksum, PutU32, GetU32, PutI64, GetI64;
    if |s| >= 8 {
      var size := GetU32(s[4..8]);
      if MIN_PAYLOAD <= size <= MAX_PAYLOAD && 8 + size <= |s| {
        assert s[8..8 + size][17..21] == s[25..29];
      }
    }
  }

  /** The shortest such input: a payload of nothing but zeros, magic aside, and a key length of 2^32 - 1,
      under its own checksum. */
  function PanicInput(): seq<byte> {
    var body := PutU32(25) + ([MAGIC] + Zeros(16) + [255, 255, 255, 255] + Zeros(4));
    PutU32(Crc32c.Checksum(body)) + body
  }

  function Zeros(n: nat): (s: seq<byte>)
    ensures |s| == n && forall i :: 0 <= i < n ==> s[i] == 0
  {
    seq(n, _ => 0)
  }

  lemma PanicReachable()
    ensures DecodeBytes(PanicInput()).Panicked?
  {
    hide Crc32c.Checksum, PutU32, GetU32;
    var payload := [MAGIC] + Zeros(16) + [255, 255, 255, 255] + Zeros(4);
    var s, body := PanicInput(), PutU32(25) + payload;
    GetPutU32(25);
    GetPutU32(Crc32c.Checksum(body));
    assert s[..4] == PutU32(Crc32c.Checksum(body)) && s[4..33] == body && s[4..8] == PutU32(25) && s[8] == MAGIC;
    assert s[25..29] == [255, 255, 255, 255];
    AllOnes();
    PanicsExactly(s);
  }

  lemma AllOnes()
    ensures GetU32([255, 255, 255, 255]) == TWO_32 - 1
  {
    assert [255, 255, 255, 255][..3] == [255, 255, 255];
    assert [255, 255, 255][..2] == [255, 255] && [255, 255][..1] == [255];
  }

  // ---------------------------------------------------------------------------------------------
  // Files: concatenated encodings
  // ---------------------------------------------------------------------------------------------

  predicate AllStorable(rs: seq<Record>) {
    forall i :: 0 <= i < |rs| ==> Storable(rs[i])
  }

  predicate AllSized(rs: seq<Record>) {
    forall i :: 0 <= i < |rs| ==> Sized(rs[i])
  }

  function ByteLen(rs: seq<Record>): nat {
    if rs == [] then 0 else EncodedSize(rs[0]) + ByteLen(rs[1..])
  }

  function EncodeAll(rs: seq<Record>): (s: seq<byte>)
    ensures |s| == ByteLen(rs)
  {
    if rs == [] then [] else Encoding(rs[0]) + EncodeAll(rs[1..])
  }

  datatype ScanResult = ScanResult(recs: seq<Record>, end: nat, stop: DecodeResult)

  /** Decodes record after record until the first answer that is not a record. */
  function Scan(s: seq<byte>): (r: ScanResult)
    ensures r.end <= |s| && !r.stop.Decoded? && r.stop == DecodeBytes(s[r.end..])
    decreases |s|
  {
    hide DecodeBytes;
    var d := DecodeBytes(s);
    if d.Decoded? then
      var rest := Scan(s[d.n..]);
      Seqs.DropDrop(s, d.n, rest.end);
      ScanResult([d.rec] + rest.recs, d.n + rest.end, rest.stop)
    else
      assert s[0..] == s;
      ScanResult([], 0, d)
  }

  lemma {:induction false} ByteLenConcat(a: seq<Record>, b: seq<Record>)
    ensures ByteLen(a + b) == ByteLen(a) + ByteLen(b)
  {
    if a == [] {
      assert a + b == b;
    } else {
      assert (a + b)[1..] == a[1..] + b;
      ByteLenConcat(a[1..], b);
    }
  }

  lemma {:induction false} EncodeAllConcat(a: seq<Record>, b: seq<Record>)
    ensures EncodeAll(a + b) == EncodeAll(a) + EncodeAll(b)
  {
    if a == [] {
      assert a + b == b;
    } else {
      assert (a + b)[1..] == a[1..] + b;
      EncodeAllConcat(a[1..], b);
    }
  }

  lemma ByteLenSnoc(rs: seq<Record>, r: Record)
    ensures ByteLen(rs + [r]) == ByteLen(rs) + EncodedSize(r)
    ensures EncodeAll(rs + [r]) == EncodeAll(rs) + Encoding(r)
  {
    ByteLenConcat(rs, [r]);
    EncodeAllConcat(rs, [r]);
    assert EncodeAll([r]) == Encoding(r) + EncodeAll([]);
  }

  lemma ByteLenSplit(rs: seq<Record>, i: nat)
    requires i <= |rs|
    ensures ByteLen(rs) == ByteLen(rs[..i]) + ByteLen(rs[i..])
    ensures EncodeAll(rs) == EncodeAll(rs[..i]) + EncodeAll(rs[i..])
  {
    assert rs == rs[..i] + rs[i..];
    ByteLenConcat(rs[..i], rs[i..]);
    EncodeAllConcat(rs[..i], rs[i..]);
  }

  /** Every record costs at least 33 bytes. */
  lemma {:induction false} ByteLenAtLeast(rs: seq<Record>)
    ensures ByteLen(rs) >= 33 * |rs|
  {
    if rs != [] {
      ByteLenAtLeast(rs[1..]);
    }
  }

  /** Decoding in the middle of a file, at a record boundary. */
  lemma DecodeAtBoundary(rs: seq<Record>, i: nat)
    requires AllSized(rs) && i < |rs|
    ensures ByteLen(rs[..i]) + EncodedSize(rs[i]) <= ByteLen(rs)
    ensures DecodeBytes(EncodeAll(rs)[ByteLen(rs[..i])..])
            == if Storable(rs[i]) then Decoded(rs[i], EncodedSize(rs[i])) else Rejected(Corrupt)
    ensures ByteLen(rs[..i + 1]) == ByteLen(rs[..i]) + EncodedSize(rs[i])
  {
    hide DecodeBytes, Encoding;
    var tail := EncodeAll(rs[i + 1..]);
    assert EncodeAll(rs) == EncodeAll(rs[..i]) + (Encoding(rs[i]) + tail) by {
      ByteLenSplit(rs, i);
      Seqs.DropDrop(rs, i, 1);
    }
    assert EncodeAll(rs)[ByteLen(rs[..i])..] == Encoding(rs[i]) + tail;
    DecodeSized(rs[i], tail);
    Seqs.TakeSnoc(rs, i);
    ByteLenSnoc(rs[..i], rs[i]);
  }

  /** How many records at the front of the file can be read back from its first `cut` bytes: those that
      are whole, up to the first one over 64 MiB. */
  function WholeRecords(rs: seq<Record>, cut: nat): (k: nat)
    ensures k <= |rs|
    ensures ByteLen(rs[..k]) <= cut && AllStorable(rs[..k])
    ensures k < |rs| ==> cut < ByteLen(rs[..k + 1]) || !Storable(rs[k])
  {
    if rs == [] || !Storable(rs[0]) || cut < EncodedSize(rs[0]) then 0
    else
      var k := WholeRecords(rs[1..], cut - EncodedSize(rs[0]));
      assert rs[..k + 1][1..] == rs[1..][..k];
      assert k + 1 < |rs| ==> rs[..k + 2][1..] == rs[1..][..k + 1];
      k + 1
  }

  /** Parsing a file cut at any byte yields exactly its longest prefix of whole, readable records, as
      long as all lengths fit the size field. The scan then ends cleanly if and only if the cut fell
      right after them. */
  lemma {:induction false} ScanCut(rs: seq<Record>, cut: nat)
    requires AllSized(rs) && cut <= ByteLen(rs)
    ensures var k := WholeRecords(rs, cut);
            var sc := Scan(EncodeAll(rs)[..cut]);
            && sc.recs == rs[..k] && sc.end == ByteLen(rs[..k])
            && (sc.stop == EndOfFile <==> sc.end == cut)
            && !sc.stop.Panicked?
    decreases |rs|
  {
    hide DecodeBytes, Encoding, Storable, Sized, PayloadSize;
    var s := EncodeAll(rs)[..cut];
    if cut == 0 {
    } else if cut < EncodedSize(rs[0]) {
      assert s == Encoding(rs[0])[..cut];
      PrefixRejected(rs[0], cut);
    } else {
      var n := EncodedSize(rs[0]);
      var rest := EncodeAll(rs[1..])[..cut - n];
      assert s == Encoding(rs[0]) + rest;
      DecodeSized(rs[0], rest);
      if Storable(rs[0]) {
        assert s[n..] == rest;
        ScanCut(rs[1..], cut - n);
        var k := WholeRecords(rs[1..], cut - n);
        Seqs.TakeCons(rs, k);
      }
    }
  }

  /** Whatever the lengths, those records come first. */
  lemma {:induction false} ScanPrefix(rs: seq<Record>, cut: nat)
    requires cut <= ByteLen(rs)
    ensures rs[..WholeRecords(rs, cut)] <= Scan(EncodeAll(rs)[..cut]).recs
    decreases |rs|
  {
    hide DecodeBytes, Encoding, PayloadSize;
    if WholeRecords(rs, cut) > 0 {
      var n := EncodedSize(rs[0]);
      var s, rest := EncodeAll(rs)[..cut], EncodeAll(rs[1..])[..cut - n];
      assert s == Encoding(rs[0]) + rest;
      DecodeEncoding(rs[0], rest);
      assert s[n..] == rest;
      ScanPrefix(rs[1..], cut - n);
      Seqs.TakeCons(rs, WholeRecords(rs[1..], cut - n));
    }
  }

  lemma StorableIsSized(rs: seq<Record>)
    requires AllStorable(rs)
    ensures AllSized(rs)
  {
  }

  /** A concatenation of encodings parses back to the one list of records it came from. */
  lemma ScanAll(rs: seq<Record>)
    requires AllStorable(rs)
    ensures Scan(EncodeAll(rs)) == ScanResult(rs, ByteLen(rs), EndOfFile)
  {
    hide DecodeBytes, Encoding, Scan;
    var cut := ByteLen(rs);
    assert EncodeAll(rs)[..cut] == EncodeAll(rs);
    ScanCut(rs, cut);
    var k := WholeRecords(rs, cut);
    if k < |rs| {
      ByteLenSplit(rs, k + 1);
    }
    assert rs[..|rs|] == rs;
  }
}
