/** The netlink side of the option codec: fixed-width integers, the PI
    attribute tags, attribute records as (tag, payload width, value), the
    request message the parser appends to, and the attribute table that the
    printer reads. Record payloads are kept as the unsigned integer they hold
    on a little-endian host; byte layout, alignment and the 1024-byte
    capacity of the libnetlink helpers are not part of this model. */
module Netlink {

  import opened Wrappers

  const U32_LIMIT: nat := 0x1_0000_0000
  const U64_LIMIT: nat := 0x1_0000_0000_0000_0000

  type U32 = x: nat | x < U32_LIMIT
  type U64 = x: nat | x < U64_LIMIT

  /** Payload widths in bytes: sizeof(__u32), sizeof(int) and
      sizeof(unsigned long) / sizeof(__u64) on an LP64 host. */
  const U32_SIZE: nat := 4
  const U64_SIZE: nat := 8

  /** The TCA_PI_* attribute types, and any other type code a peer may send. */
  datatype Tag = Limit | Qref | W | A | B | Ecn | Bytemode | Other(code: nat)

  /** One record of the nest: its type, its payload length in bytes and the
      unsigned value the payload holds. */
  datatype Record = Record(tag: Tag, width: nat, value: nat)

  /** A top-level attribute of a traffic-control request: the TCA_OPTIONS
      nest, or an attribute some other code put there before. */
  datatype TcAttr = TcaOptions(nest: seq<Record>) | TcaOther(kind: nat)

  /** The request message `n`. Finished attributes are in `attrs`; the
      records added since the last addattr_nest are in `nest` until
      addattr_nest_end wraps them into one TCA_OPTIONS attribute. */
  class NlMsg {
    var attrs: seq<TcAttr>
    var nest: seq<Record>

    constructor (attrs0: seq<TcAttr>)
      ensures attrs == attrs0 && nest == []
    {
      attrs := attrs0;
      nest := [];
    }

    /** addattr_nest(n, 1024, TCA_OPTIONS): starts an empty nest. */
    method AddNest()
      modifies this
      ensures attrs == old(attrs) && nest == []
    {
      nest := [];
    }

    /** addattr_l: the record goes after the nest's earlier records. */
    method AddAttr(r: Record)
      modifies this
      ensures attrs == old(attrs) && nest == old(nest) + [r]
    {
      nest := nest + [r];
    }

    /** addattr_nest_end: the nest becomes the message's last attribute. */
    method NestEnd()
      modifies this
      ensures attrs == old(attrs) + [TcaOptions(old(nest))] && nest == []
    {
      attrs := attrs + [TcaOptions(nest)];
      nest := [];
    }
  }

  /** A conversion to a 32-bit unsigned int: the low 32 bits. */
  function Low32(x: nat): (v: U32)
    ensures x < U32_LIMIT ==> v == x
    ensures (x - v) % U32_LIMIT == 0
  {
    x % U32_LIMIT
  }

  /** rta_getattr_u32: the first four payload bytes, little-endian. */
  function GetU32(r: Record): (v: U32)
    ensures r.value < U32_LIMIT ==> v == r.value
    ensures (r.value - v) % U32_LIMIT == 0
  {
    r.value % U32_LIMIT
  }

  /** rta_getattr_u64: the first eight payload bytes, little-endian. */
  function GetU64(r: Record): (v: U64)
    ensures r.value < U64_LIMIT ==> v == r.value
    ensures (r.value - v) % U64_LIMIT == 0
  {
    r.value % U64_LIMIT
  }

  /** The first record of a given type in a nest, if any. */
  function Find(records: seq<Record>, t: Tag): (r: Option<Record>)
    ensures r.Some? ==> r.value.tag == t
  {
    if records == [] then None
    else if records[0].tag == t then Some(records[0])
    else Find(records[1..], t)
  }

  /** The lookup finds nothing exactly when no record has the tag, and
      otherwise the first record that has it. */
  lemma {:induction false} FindSpec(records: seq<Record>, t: Tag)
    ensures Find(records, t).None? <==> forall i :: 0 <= i < |records| ==> records[i].tag != t
    ensures Find(records, t).Some? ==>
      exists k :: 0 <= k < |records| && records[k] == Find(records, t).value &&
        forall j :: 0 <= j < k ==> records[j].tag != t
  {
    if records != [] && records[0].tag != t {
      FindSpec(records[1..], t);
      if Find(records, t).Some? {
        var k :| 0 <= k < |records[1..]| && records[1..][k] == Find(records, t).value &&
          forall j :: 0 <= j < k ==> records[1..][j].tag != t;
        assert records[k + 1] == Find(records, t).value;
        assert forall j :: 0 <= j < k + 1 ==> records[j].tag != t by {
          forall j | 0 <= j < k + 1 ensures records[j].tag != t {
            if j > 0 { assert records[j] == records[1..][j - 1]; }
          }
        }
      } else {
        assert forall i :: 0 < i < |records| ==> records[i] == records[1..][i - 1];
      }
    } else if records != [] {
      assert records[0] == Find(records, t).value;
    }
  }

  /** The index of a tag in an ordering of tags. */
  function Position(order: seq<Tag>, t: Tag): nat
  {
    if order == [] || order[0] == t then 0 else 1 + Position(order[1..], t)
  }

  predicate NoDuplicates(order: seq<Tag>)
  {
    forall i, j :: 0 <= i < j < |order| ==> order[i] != order[j]
  }

  /** True when no two records of the nest share a type. */
  predicate DistinctTags(records: seq<Record>)
  {
    forall i, j :: 0 <= i < j < |records| ==> records[i].tag != records[j].tag
  }

  lemma {:induction false} FindUnique(records: seq<Record>, k: nat)
    requires DistinctTags(records)
    requires k < |records|
    ensures Find(records, records[k].tag) == Some(records[k])
  {
    if k > 0 {
      assert records[0].tag != records[k].tag;
      FindUnique(records[1..], k - 1);
    }
  }
}
