/** The binary trace format shared by the two programs of pa4: a sequence
    of 32-bit addresses, four bytes each, most significant byte first.
    `compile_trace_file` (pa4/conv.c) writes it byte by byte; the
    simulator (pa4/sim.c) reads it with `fread` and converts each record
    with `ntohl`. */
module TraceFormat {
  import opened Words

  /** `buf[0] = addr >> 24; ... buf[3] = addr;` with the truncation to
      `unsigned char` written as `% 256`. */
  function EncodeBE(a: u32): (b: seq<u8>)
    ensures |b| == 4
  {
    [a / 0x100_0000, a / 0x1_0000 % 0x100, a / 0x100 % 0x100, a % 0x100]
  }

  /** `ntohl` applied to four bytes read in file order. */
  function DecodeBE(b: seq<u8>): (a: u32)
    requires |b| == 4
    ensures a / 0x100_0000 == b[0] && a % 0x100 == b[3]
  {
    b[0] as int * 0x100_0000 + b[1] as int * 0x1_0000 + b[2] as int * 0x100 + b[3] as int
  }

  /** Decoding undoes encoding ... */
  lemma DecodeEncode(a: u32)
    ensures DecodeBE(EncodeBE(a)) == a
  {
    var q1, q2 := a / 0x100, a / 0x1_0000;
    assert q1 == a / 0x100 && a == q1 * 0x100 + a % 0x100;
    assert q2 == q1 / 0x100 && q1 == q2 * 0x100 + q1 % 0x100;
    assert a / 0x100_0000 == q2 / 0x100 && q2 == q2 / 0x100 * 0x100 + q2 % 0x100;
  }

  /** ... and encoding undoes decoding, so the two are inverse bijections
      between 32-bit words and 4-byte records. */
  lemma EncodeDecode(b: seq<u8>)
    requires |b| == 4
    ensures EncodeBE(DecodeBE(b)) == b
  {
    var a := DecodeBE(b);
    assert a / 0x100 == b[0] as int * 0x1_0000 + b[1] as int * 0x100 + b[2] as int;
    assert a / 0x1_0000 == b[0] as int * 0x100 + b[1] as int;
  }

  /** The bytes `compile_trace_file` writes for a list of addresses. */
  function Serialize(addrs: seq<u32>): (bytes: seq<u8>)
    ensures |bytes| == 4 * |addrs|
  {
    if addrs == [] then [] else EncodeBE(addrs[0]) + Serialize(addrs[1..])
  }

  /** The addresses the simulator's `fread` loop obtains from a byte
      stream: one per whole record; a trailing partial record makes `fread`
      return 0 and is dropped. */
  function Records(bytes: seq<u8>): (addrs: seq<u32>)
    ensures |addrs| == |bytes| / 4
  {
    if |bytes| < 4 then [] else [DecodeBE(bytes[..4])] + Records(bytes[4..])
  }

  /** Record k of a stream is the word decoded from bytes 4k .. 4k+3. */
  lemma {:induction false} RecordAt(bytes: seq<u8>, k: nat)
    requires 4 * k + 4 <= |bytes|
    ensures k < |Records(bytes)|
    ensures Records(bytes)[k] == DecodeBE(bytes[4 * k..4 * k + 4])
  {
    if k > 0 {
      var rest := bytes[4..];
      RecordAt(rest, k - 1);
      assert rest[4 * (k - 1)..4 * (k - 1) + 4]
          == bytes[4 * k..4 * k + 4];
    }
  }

  /** Reading back what was written gives the same addresses, whatever
      incomplete record (fewer than 4 bytes) follows. */
  lemma {:induction false} RecordsOfSerialize(addrs: seq<u32>, tail: seq<u8>)
    requires |tail| < 4
    ensures Records(Serialize(addrs) + tail) == addrs
  {
    if addrs != [] {
      var bytes := Serialize(addrs) + tail;
      assert bytes[..4] == EncodeBE(addrs[0]);
      assert bytes[4..] == Serialize(addrs[1..]) + tail;
      DecodeEncode(addrs[0]);
      RecordsOfSerialize(addrs[1..], tail);
    } else {
      assert Serialize(addrs) + tail == tail;
    }
  }

  /** Appending one address appends its record. */
  lemma {:induction false} SerializeSnoc(addrs: seq<u32>, a: u32)
    ensures Serialize(addrs + [a]) == Serialize(addrs) + EncodeBE(a)
  {
    if addrs != [] {
      assert (addrs + [a])[1..] == addrs[1..] + [a];
      SerializeSnoc(addrs[1..], a);
    } else {
      assert addrs + [a] == [a];
    }
  }
}
