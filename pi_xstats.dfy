/** pi_print_xstats: checks the length of the statistics record the kernel
    sends and prints its fields. The record is struct tc_pi_xstats, seven
    32-bit fields in host (little-endian) byte order. */
module PiXstats {

  import opened Wrappers
  import opened Netlink
  import opened Text
  import opened TcUtil

  type Byte = x: nat | x < 256

  /** sizeof(struct tc_pi_xstats). */
  const XSTATS_SIZE: nat := 28

  /** struct tc_pi_xstats, field by field. */
  datatype Stats = Stats(
    prob: U32,
    qlen: U32,
    packetsIn: U32,
    overlimit: U32,
    dropped: U32,
    maxq: U32,
    ecnMark: U32)

  /** A 32-bit value as it lies in memory on a little-endian host: the
      low byte first. */
  function EncodeU32(v: U32): (p: seq<Byte>)
    ensures |p| == 4
  {
    var v1 := v / 256;
    var v2 := v1 / 256;
    [v % 256, v1 % 256, v2 % 256, v2 / 256]
  }

  /** Reading the 32-bit value that starts at offset `off`. */
  function DecodeU32(p: seq<Byte>, off: nat): (v: U32)
    requires off + 4 <= |p|
  {
    var b0, b1, b2, b3 := p[off] as int, p[off + 1] as int, p[off + 2] as int, p[off + 3] as int;
    b0 + 256 * (b1 + 256 * (b2 + 256 * b3))
  }

  /** Bytes written by EncodeU32 read back as the value written. */
  lemma U32RoundTrip(p: seq<Byte>, off: nat, v: U32)
    requires off + 4 <= |p| && p[off..off + 4] == EncodeU32(v)
    ensures DecodeU32(p, off) == v
  {
    var v1 := v / 256;
    var v2 := v1 / 256;
    assert p[off] == v % 256 && p[off + 1] == v1 % 256;
    assert p[off + 2] == v2 % 256 && p[off + 3] == v2 / 256;
  }

  /** Any four bytes are the encoding of the value they read as. */
  lemma U32BytesRoundTrip(p: seq<Byte>, off: nat)
    requires off + 4 <= |p|
    ensures EncodeU32(DecodeU32(p, off)) == p[off..off + 4]
  {
    var b0, b1, b2, b3 := p[off] as int, p[off + 1] as int, p[off + 2] as int, p[off + 3] as int;
    var v := DecodeU32(p, off);
    var v2 := b2 + 256 * b3;
    var v1 := b1 + 256 * v2;
    assert v == b0 + 256 * v1;
    assert v / 256 == v1 && v % 256 == b0;
    assert v1 / 256 == v2 && v1 % 256 == b1;
    assert v2 / 256 == b3 && v2 % 256 == b2;
  }

  /** The kernel's side: the bytes of a record. */
  function Encode(st: Stats): (p: seq<Byte>)
    ensures |p| == XSTATS_SIZE
  {
    EncodeU32(st.prob) + EncodeU32(st.qlen) + EncodeU32(st.packetsIn) + EncodeU32(st.overlimit)
      + EncodeU32(st.dropped) + EncodeU32(st.maxq) + EncodeU32(st.ecnMark)
  }

  /** The view `st = RTA_DATA(xstats)` gives of the first XSTATS_SIZE bytes. */
  function Decode(p: seq<Byte>): Stats
    requires |p| >= XSTATS_SIZE
  {
    Stats(DecodeU32(p, 0), DecodeU32(p, 4), DecodeU32(p, 8), DecodeU32(p, 12),
          DecodeU32(p, 16), DecodeU32(p, 20), DecodeU32(p, 24))
  }

  /** Reading a record the kernel wrote gives back its fields, whatever
      follows it in the payload. */
  lemma {:induction false} DecodeEncode(st: Stats, rest: seq<Byte>)
    ensures Decode(Encode(st) + rest) == st
  {
    var p := Encode(st) + rest;
    var e := [EncodeU32(st.prob), EncodeU32(st.qlen), EncodeU32(st.packetsIn), EncodeU32(st.overlimit),
              EncodeU32(st.dropped), EncodeU32(st.maxq), EncodeU32(st.ecnMark)];
    forall k | 0 <= k < 7
      ensures p[4 * k..4 * k + 4] == e[k]
    {
    }
    U32RoundTrip(p, 0, st.prob);
    U32RoundTrip(p, 4, st.qlen);
    U32RoundTrip(p, 8, st.packetsIn);
    U32RoundTrip(p, 12, st.overlimit);
    U32RoundTrip(p, 16, st.dropped);
    U32RoundTrip(p, 20, st.maxq);
    U32RoundTrip(p, 24, st.ecnMark);
  }

  /** The bytes behind any long enough payload are the encoding of the
      record read from them: reading loses nothing of the first
      XSTATS_SIZE bytes. */
  lemma {:induction false} EncodeDecode(p: seq<Byte>)
    requires |p| >= XSTATS_SIZE
    ensures Encode(Decode(p)) == p[..XSTATS_SIZE]
  {
    U32BytesRoundTrip(p, 0);
    U32BytesRoundTrip(p, 4);
    U32BytesRoundTrip(p, 8);
    U32BytesRoundTrip(p, 12);
    U32BytesRoundTrip(p, 16);
    U32BytesRoundTrip(p, 20);
    U32BytesRoundTrip(p, 24);
    assert p[..XSTATS_SIZE] == p[0..4] + p[4..8] + p[8..12] + p[12..16] + p[16..20] + p[20..24] + p[24..28];
  }

  /** `name value` followed by the rest of a line. */
  function Field(name: string, v: nat, rest: string): string
  {
    name + (Decimal(v) + rest)
  }

  /** The first fprintf: the probability as the caller's `%f` rendering of
      prob / 0xffffffff, and qlen through `%d`. */
  function ProbLine(st: Stats, f: Formatters): string
  {
    "prob " + f.probText(st.prob) + " qlen " + SignedDecimal(Int32Of(st.qlen)) + "\n"
  }

  /** The second fprintf: the five counters through `%u`. */
  function CounterLine(st: Stats): string
  {
    Field("pkts_in ", st.packetsIn,
      Field(" overlimit ", st.overlimit,
        Field(" dropped ", st.dropped,
          Field(" maxq ", st.maxq,
            Field(" ecn_mark ", st.ecnMark, "\n")))))
  }

  /** pi_print_xstats. */
  function PrintXstats(xstats: Option<seq<Byte>>, f: Formatters): (r: Printed)
    ensures xstats.None? ==> r == Printed(0, [])
    ensures xstats.Some? && |xstats.value| < XSTATS_SIZE ==> r == Printed(-1, [])
    ensures xstats.Some? && |xstats.value| >= XSTATS_SIZE ==> r.status == 0 && |r.out| == 2
  {
    match xstats
    case None => Printed(0, [])
    case Some(p) =>
      if |p| < XSTATS_SIZE then Printed(-1, [])
      else
        var st := Decode(p);
        Printed(0, [ProbLine(st, f), CounterLine(st)])
  }

  /** For a record the kernel wrote, whatever trails it, the two lines show
      its own fields. */
  lemma PrintsRecord(st: Stats, rest: seq<Byte>, f: Formatters)
    ensures PrintXstats(Some(Encode(st) + rest), f) == Printed(0, [ProbLine(st, f), CounterLine(st)])
  {
    DecodeEncode(st, rest);
  }

  /** Text after a number that does not begin with a digit. */
  predicate Delimited(rest: string)
  {
    rest != [] && !IsDigit(rest[0])
  }

  lemma {:induction false} FieldInjective(name: string, v1: nat, r1: string, v2: nat, r2: string)
    requires Delimited(r1) && Delimited(r2)
    requires Field(name, v1, r1) == Field(name, v2, r2)
    ensures v1 == v2 && r1 == r2
  {
    var x1, x2 := Decimal(v1) + r1, Decimal(v2) + r2;
    assert x1 == Field(name, v1, r1)[|name|..];
    assert x2 == Field(name, v2, r2)[|name|..];
    DigitsPrefixUnique(Decimal(v1), r1, Decimal(v2), r2);
    DecimalInjective(v1, v2);
  }

  lemma FieldDelimited(name: string, v: nat, rest: string)
    requires name != [] && !IsDigit(name[0])
    ensures Delimited(Field(name, v, rest))
  {
  }

  /** The counter line determines the five counters: each is printed
      unchanged and in its own place, so two records print the same line
      only if their counters agree. */
  lemma {:induction false} CounterLineInjective(s1: Stats, s2: Stats)
    requires CounterLine(s1) == CounterLine(s2)
    ensures s1.packetsIn == s2.packetsIn && s1.overlimit == s2.overlimit && s1.dropped == s2.dropped
    ensures s1.maxq == s2.maxq && s1.ecnMark == s2.ecnMark
  {
    var e1, e2 := Field(" ecn_mark ", s1.ecnMark, "\n"), Field(" ecn_mark ", s2.ecnMark, "\n");
    var m1, m2 := Field(" maxq ", s1.maxq, e1), Field(" maxq ", s2.maxq, e2);
    var d1, d2 := Field(" dropped ", s1.dropped, m1), Field(" dropped ", s2.dropped, m2);
    var o1, o2 := Field(" overlimit ", s1.overlimit, d1), Field(" overlimit ", s2.overlimit, d2);
    FieldDelimited(" overlimit ", s1.overlimit, d1);
    FieldDelimited(" overlimit ", s2.overlimit, d2);
    FieldInjective("pkts_in ", s1.packetsIn, o1, s2.packetsIn, o2);
    FieldDelimited(" dropped ", s1.dropped, m1);
    FieldDelimited(" dropped ", s2.dropped, m2);
    FieldInjective(" overlimit ", s1.overlimit, d1, s2.overlimit, d2);
    FieldDelimited(" maxq ", s1.maxq, e1);
    FieldDelimited(" maxq ", s2.maxq, e2);
    FieldInjective(" dropped ", s1.dropped, m1, s2.dropped, m2);
    FieldDelimited(" ecn_mark ", s1.ecnMark, "\n");
    FieldDelimited(" ecn_mark ", s2.ecnMark, "\n");
    FieldInjective(" maxq ", s1.maxq, e1, s2.maxq, e2);
    FieldInjective(" ecn_mark ", s1.ecnMark, "\n", s2.ecnMark, "\n");
  }
}
