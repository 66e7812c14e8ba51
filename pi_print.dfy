/** pi_print_opt: renders the PI attribute table as `name value ` text.
    Each output element is the text of one fprintf call. */
module PiPrint {

  import opened Wrappers
  import opened Netlink
  import opened Text
  import opened TcUtil

  /** The order in which the fields are printed. */
  const PrintOrder: seq<Tag> := [Limit, Qref, W, A, B, Ecn, Bytemode]

  /** The payload a field needs before it is read: sizeof(__u64) for `a`
      and `b`, sizeof(__u32) for the others. */
  function MinWidth(t: Tag): nat
  {
    if t == A || t == B then U64_SIZE else U32_SIZE
  }

  predicate IsFlagTag(t: Tag)
  {
    t == Ecn || t == Bytemode
  }

  /** Whether a field is printed: tb[t] is set, its payload is wide enough,
      and, for the two flags, the value read is non-zero. */
  predicate Shown(records: seq<Record>, t: Tag)
  {
    match Find(records, t)
    case None => false
    case Some(r) => r.width >= MinWidth(t) && (IsFlagTag(t) ==> GetU32(r) != 0)
  }

  /** The text printed for the record of a field: the limit with a `p`
      suffix, qref and w through sprint_time, a and b narrowed from the u64
      read to an unsigned int, the flags as bare names. */
  function FieldText(r: Record, t: Tag, f: Formatters): string
  {
    match t
    case Limit => "limit " + Decimal(GetU32(r)) + "p "
    case Qref => "qref " + f.sprintTime(GetU32(r)) + " "
    case W => "w " + f.sprintTime(GetU32(r)) + " "
    case A => "a " + Decimal(Low32(GetU64(r))) + " "
    case B => "b " + Decimal(Low32(GetU64(r))) + " "
    case Ecn => "ecn "
    case Bytemode => "bytemode "
    case Other(_) => ""
  }

  /** The fields of `order` that are printed, in that order. */
  function ShownTags(order: seq<Tag>, records: seq<Record>): seq<Tag>
  {
    if order == [] then []
    else (if Shown(records, order[0]) then [order[0]] else []) + ShownTags(order[1..], records)
  }

  /** The text of one field, if it is printed. */
  function FieldOut(tb: seq<Record>, t: Tag, f: Formatters): seq<string>
  {
    if Shown(tb, t) then [FieldText(Find(tb, t).value, t, f)] else []
  }

  /** The texts of the fields of `order` that are printed, in that order. */
  function Rendered(order: seq<Tag>, tb: seq<Record>, f: Formatters): seq<string>
  {
    if order == [] then [] else FieldOut(tb, order[0], f) + Rendered(order[1..], tb, f)
  }

  /** pi_print_opt. A null table prints nothing; either way the result is
      0. Otherwise the output is the text of each printed field, in
      PrintOrder. */
  function PrintOpt(opt: Option<seq<Record>>, f: Formatters): (r: Printed)
    ensures r.status == 0
    ensures opt.None? ==> r.out == []
    ensures opt.Some? ==> r.out == Rendered(PrintOrder, opt.value, f)
  {
    if opt.None? then Printed(0, [])
    else
      var tb := opt.value;
      RenderedSpelledOut(tb, f);
      Printed(0, FieldOut(tb, Limit, f) + (FieldOut(tb, Qref, f) + (FieldOut(tb, W, f)
        + (FieldOut(tb, A, f) + (FieldOut(tb, B, f) + (FieldOut(tb, Ecn, f)
        + FieldOut(tb, Bytemode, f)))))))
  }

  /** Helper for PrintOpt: Rendered over PrintOrder, field by field. */
  lemma RenderedSpelledOut(tb: seq<Record>, f: Formatters)
    ensures Rendered(PrintOrder, tb, f) ==
      FieldOut(tb, Limit, f) + (FieldOut(tb, Qref, f) + (FieldOut(tb, W, f) + (FieldOut(tb, A, f)
      + (FieldOut(tb, B, f) + (FieldOut(tb, Ecn, f) + FieldOut(tb, Bytemode, f))))))
  {
    var o := PrintOrder;
    RenderedCons(o, tb, f);
    RenderedCons(o[1..], tb, f);
    RenderedCons(o[2..], tb, f);
    RenderedCons(o[3..], tb, f);
    RenderedCons(o[4..], tb, f);
    RenderedCons(o[5..], tb, f);
    RenderedCons(o[6..], tb, f);
    assert o[7..] == [];
  }

  lemma RenderedCons(o: seq<Tag>, tb: seq<Record>, f: Formatters)
    requires o != []
    ensures Rendered(o, tb, f) == FieldOut(tb, o[0], f) + Rendered(o[1..], tb, f)
  {
  }

  // Properties of the printer

  /** Rendered is one text per printed field, in the order given. */
  lemma {:induction false} RenderedTags(order: seq<Tag>, tb: seq<Record>, f: Formatters)
    ensures |Rendered(order, tb, f)| == |ShownTags(order, tb)|
    ensures forall i :: 0 <= i < |ShownTags(order, tb)| ==>
      Shown(tb, ShownTags(order, tb)[i]) &&
      Rendered(order, tb, f)[i] == FieldText(Find(tb, ShownTags(order, tb)[i]).value, ShownTags(order, tb)[i], f)
  {
    if order != [] {
      RenderedTags(order[1..], tb, f);
    }
  }

  /** The printed fields are exactly the shown fields of `order`, each
      once, in the order given. */
  lemma {:induction false} ShownTagsSpec(order: seq<Tag>, tb: seq<Record>)
    requires NoDuplicates(order)
    ensures forall t :: t in ShownTags(order, tb) <==> t in order && Shown(tb, t)
    ensures forall i, j :: 0 <= i < j < |ShownTags(order, tb)| ==>
      Position(order, ShownTags(order, tb)[i]) < Position(order, ShownTags(order, tb)[j])
  {
    if order != [] {
      ShownTagsSpec(order[1..], tb);
      var tail := ShownTags(order[1..], tb);
      forall k | 0 <= k < |tail|
        ensures tail[k] != order[0]
        ensures Position(order, tail[k]) == 1 + Position(order[1..], tail[k])
      {
        assert tail[k] in tail;
      }
      forall t ensures t in order <==> t == order[0] || t in order[1..] {
      }
    }
  }

  /** The first two characters of a field's text, which tell the fields
      apart. */
  function Lead(t: Tag): string
  {
    match t
    case Limit => "li"
    case Qref => "qr"
    case W => "w "
    case A => "a "
    case B => "b "
    case Ecn => "ec"
    case Bytemode => "by"
    case Other(_) => ""
  }

  /** Text s begins the way the text of field t does. */
  predicate Leads(s: string, t: Tag)
  {
    |s| >= 2 && s[..2] == Lead(t)
  }

  lemma FieldTextLead(r: Record, t: Tag, f: Formatters)
    requires !t.Other?
    ensures Leads(FieldText(r, t, f), t)
  {
  }

  /** An ordering of fields whose texts can be told apart by their lead. */
  predicate Distinguishable(order: seq<Tag>)
  {
    NoDuplicates(order) &&
    (forall t :: t in order ==> !t.Other?) &&
    (forall t1, t2 :: t1 in order && t2 in order && Lead(t1) == Lead(t2) ==> t1 == t2)
  }

  lemma {:induction false} RenderedShows(order: seq<Tag>, tb: seq<Record>, f: Formatters, t: Tag)
    requires Distinguishable(order)
    requires t in order && Shown(tb, t)
    ensures FieldText(Find(tb, t).value, t, f) in Rendered(order, tb, f)
  {
    var tags := ShownTags(order, tb);
    RenderedTags(order, tb, f);
    ShownTagsSpec(order, tb);
    var k :| 0 <= k < |tags| && tags[k] == t;
    assert Rendered(order, tb, f)[k] == FieldText(Find(tb, t).value, t, f);
  }

  lemma {:induction false} RenderedLeads(order: seq<Tag>, tb: seq<Record>, f: Formatters, i: nat, t: Tag)
    requires Distinguishable(order)
    requires i < |Rendered(order, tb, f)| && t in order && Leads(Rendered(order, tb, f)[i], t)
    ensures i < |ShownTags(order, tb)| && ShownTags(order, tb)[i] == t
    ensures Shown(tb, t) && Rendered(order, tb, f)[i] == FieldText(Find(tb, t).value, t, f)
  {
    var tags := ShownTags(order, tb);
    RenderedTags(order, tb, f);
    ShownTagsSpec(order, tb);
    assert tags[i] in tags;
    FieldTextLead(Find(tb, tags[i]).value, tags[i], f);
  }

  lemma {:induction false} RenderedOrdered(order: seq<Tag>, tb: seq<Record>, f: Formatters, i: nat, j: nat, t1: Tag, t2: Tag)
    requires Distinguishable(order)
    requires i < j < |Rendered(order, tb, f)| && t1 in order && t2 in order
    requires Leads(Rendered(order, tb, f)[i], t1) && Leads(Rendered(order, tb, f)[j], t2)
    ensures Position(order, t1) < Position(order, t2)
  {
    RenderedLeads(order, tb, f, i, t1);
    RenderedLeads(order, tb, f, j, t2);
    ShownTagsSpec(order, tb);
    assert ShownTags(order, tb)[i] == t1 && ShownTags(order, tb)[j] == t2;
  }

  lemma PrintOrderDistinguishable()
    ensures Distinguishable(PrintOrder)
  {
  }

  /** pi_print_opt prints a field exactly when tb holds it with a wide
      enough payload (and, for ecn and bytemode, a non-zero value); any
      text that begins like that field's is that field's text; the fields
      come in the order limit, qref, w, a, b, ecn, bytemode. */
  lemma PrintedFields(tb: seq<Record>, f: Formatters)
    ensures var out := PrintOpt(Some(tb), f).out;
      (forall t :: t in PrintOrder && Shown(tb, t) ==> FieldText(Find(tb, t).value, t, f) in out) &&
      (forall i, t :: 0 <= i < |out| && t in PrintOrder && Leads(out[i], t) ==>
        Shown(tb, t) && out[i] == FieldText(Find(tb, t).value, t, f)) &&
      (forall i, j, t1, t2 ::
        (0 <= i < j < |out| && t1 in PrintOrder && t2 in PrintOrder && Leads(out[i], t1) && Leads(out[j], t2))
        ==> Position(PrintOrder, t1) < Position(PrintOrder, t2))
  {
    var out := PrintOpt(Some(tb), f).out;
    PrintOrderDistinguishable();
    forall t | t in PrintOrder && Shown(tb, t)
      ensures FieldText(Find(tb, t).value, t, f) in out
    {
      RenderedShows(PrintOrder, tb, f, t);
    }
    forall i, t | 0 <= i < |out| && t in PrintOrder && Leads(out[i], t)
      ensures Shown(tb, t) && out[i] == FieldText(Find(tb, t).value, t, f)
    {
      RenderedLeads(PrintOrder, tb, f, i, t);
    }
    forall i, j, t1, t2 |
        0 <= i < j < |out| && t1 in PrintOrder && t2 in PrintOrder && Leads(out[i], t1) && Leads(out[j], t2)
      ensures Position(PrintOrder, t1) < Position(PrintOrder, t2)
    {
      RenderedOrdered(PrintOrder, tb, f, i, j, t1, t2);
    }
  }

  /** The text of a flag. */
  function FlagText(t: Tag): string
  {
    if t == Ecn then "ecn " else "bytemode "
  }

  lemma {:induction false} RenderedFlag(order: seq<Tag>, tb: seq<Record>, f: Formatters, t: Tag)
    requires Distinguishable(order) && t in order && (t == Ecn || t == Bytemode)
    ensures FlagText(t) in Rendered(order, tb, f) <==> Shown(tb, t)
    ensures forall i :: 0 <= i < |Rendered(order, tb, f)| && Leads(Rendered(order, tb, f)[i], t) ==>
      Rendered(order, tb, f)[i] == FlagText(t)
  {
    var out := Rendered(order, tb, f);
    if Shown(tb, t) {
      RenderedShows(order, tb, f, t);
    }
    if FlagText(t) in out {
      var i :| 0 <= i < |out| && out[i] == FlagText(t);
      RenderedLeads(order, tb, f, i, t);
    }
    forall i | 0 <= i < |out| && Leads(out[i], t)
      ensures out[i] == FlagText(t)
    {
      RenderedLeads(order, tb, f, i, t);
    }
  }

  /** A flag prints as its bare name, and only when tb holds it with a
      payload of at least four bytes whose value is non-zero. */
  lemma FlagPrintedBare(tb: seq<Record>, f: Formatters, t: Tag)
    requires t == Ecn || t == Bytemode
    ensures var out := PrintOpt(Some(tb), f).out;
      (FlagText(t) in out <==> Find(tb, t).Some? && Find(tb, t).value.width >= U32_SIZE
                               && GetU32(Find(tb, t).value) != 0) &&
      (forall i :: 0 <= i < |out| && Leads(out[i], t) ==> out[i] == FlagText(t))
  {
    PrintOrderDistinguishable();
    RenderedFlag(PrintOrder, tb, f, t);
  }
}
