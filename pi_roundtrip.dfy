/** What pi_print_opt shows of the nest pi_parse_opt writes: the options the
    user gave come back as text, except those that leave nothing to show (a
    zero value, `noecn`, `nobytemode`). */
module PiRoundTrip {

  import opened Wrappers
  import opened Netlink
  import opened Text
  import opened TcUtil
  import opened PiParse
  import opened PiPrint

  /** Whether a setting shows up in the printed text: a numeric parameter
      when it is non-zero, a flag when it was switched on. */
  predicate Printable(s: Settings, t: Tag)
  {
    match t
    case Limit => s.limit != 0
    case Qref => s.qref != 0
    case W => s.w != 0
    case A => s.a != 0
    case B => s.b != 0
    case Ecn => s.ecn == Some(true)
    case Bytemode => s.bytemode == Some(true)
    case Other(_) => false
  }

  /** The text a setting prints as: `a` and `b` through their low 32 bits,
      since pi_print_opt stores the 64-bit reads in unsigned ints. */
  function SettingText(s: Settings, t: Tag, f: Formatters): string
  {
    match t
    case Limit => "limit " + Decimal(s.limit) + "p "
    case Qref => "qref " + f.sprintTime(s.qref) + " "
    case W => "w " + f.sprintTime(s.w) + " "
    case A => "a " + Decimal(Low32(s.a)) + " "
    case B => "b " + Decimal(Low32(s.b)) + " "
    case Ecn => "ecn "
    case Bytemode => "bytemode "
    case Other(_) => ""
  }

  /** A field of the emitted nest is shown exactly when its setting is
      printable, and then as that setting's text. */
  lemma ShownAfterEmit(s: Settings, t: Tag, f: Formatters)
    requires t in PrintOrder
    ensures Shown(Emit(s), t) <==> Printable(s, t)
    ensures Shown(Emit(s), t) ==> FieldText(Find(Emit(s), t).value, t, f) == SettingText(s, t, f)
  {
    EmitContents(s);
    assert Find(Emit(s), t) == (if Emitted(s, t) then Some(RecordOf(s, t)) else None);
  }

  /** Printing the nest emitted for any settings: each printable setting
      appears as its text, no other does, and any text that begins like a
      field's is that setting's text. */
  lemma {:induction false} PrintAfterEmit(s: Settings, f: Formatters)
    ensures var out := PrintOpt(Some(Emit(s)), f).out;
      (forall t :: t in PrintOrder ==> (SettingText(s, t, f) in out <==> Printable(s, t))) &&
      (forall i, t :: 0 <= i < |out| && t in PrintOrder && Leads(out[i], t) ==>
        Printable(s, t) && out[i] == SettingText(s, t, f))
  {
    var out := PrintOpt(Some(Emit(s)), f).out;
    PrintedFields(Emit(s), f);
    forall t | t in PrintOrder
      ensures SettingText(s, t, f) in out <==> Printable(s, t)
    {
      ShownAfterEmit(s, t, f);
      if SettingText(s, t, f) in out {
        var i :| 0 <= i < |out| && out[i] == SettingText(s, t, f);
        SettingTextLead(s, t, f);
      }
    }
    forall i, t | 0 <= i < |out| && t in PrintOrder && Leads(out[i], t)
      ensures Printable(s, t) && out[i] == SettingText(s, t, f)
    {
      ShownAfterEmit(s, t, f);
    }
  }

  lemma SettingTextLead(s: Settings, t: Tag, f: Formatters)
    requires t in PrintOrder
    ensures Leads(SettingText(s, t, f), t)
  {
  }

  /** Settings within the bounds the parser enforces print with the values
      given: a and b are small enough to survive the narrowing. */
  lemma PrintBounded(s: Settings, f: Formatters)
    requires Bounded(s)
    ensures var out := PrintOpt(Some(Emit(s)), f).out;
      ("limit " + Decimal(s.limit) + "p " in out <==> s.limit != 0) &&
      ("qref " + f.sprintTime(s.qref) + " " in out <==> s.qref != 0) &&
      ("w " + f.sprintTime(s.w) + " " in out <==> s.w != 0) &&
      ("a " + Decimal(s.a) + " " in out <==> s.a != 0) &&
      ("b " + Decimal(s.b) + " " in out <==> s.b != 0) &&
      ("ecn " in out <==> s.ecn == Some(true)) &&
      ("bytemode " in out <==> s.bytemode == Some(true))
  {
    assert SettingText(s, Limit, f) == "limit " + Decimal(s.limit) + "p ";
    assert SettingText(s, Qref, f) == "qref " + f.sprintTime(s.qref) + " ";
    assert SettingText(s, W, f) == "w " + f.sprintTime(s.w) + " ";
    assert SettingText(s, A, f) == "a " + Decimal(s.a) + " ";
    assert SettingText(s, B, f) == "b " + Decimal(s.b) + " ";
    assert SettingText(s, Ecn, f) == "ecn ";
    assert SettingText(s, Bytemode, f) == "bytemode ";
    PrintAfterEmit(s, f);
  }

  /** Parse then print: after a successful parse, every non-zero numeric
      parameter and every flag switched on is printed with the value parsed,
      and nothing is printed for the others. */
  lemma ParseThenPrint(sc: Scanners, args: seq<string>, f: Formatters)
    requires Parse(sc, args).Ok?
    ensures var s := Parse(sc, args).value; var out := PrintOpt(Some(Emit(s)), f).out;
      ("limit " + Decimal(s.limit) + "p " in out <==> s.limit != 0) &&
      ("qref " + f.sprintTime(s.qref) + " " in out <==> s.qref != 0) &&
      ("w " + f.sprintTime(s.w) + " " in out <==> s.w != 0) &&
      ("a " + Decimal(s.a) + " " in out <==> s.a != 0) &&
      ("b " + Decimal(s.b) + " " in out <==> s.b != 0) &&
      ("ecn " in out <==> s.ecn == Some(true)) &&
      ("bytemode " in out <==> s.bytemode == Some(true))
  {
    PrintBounded(Parse(sc, args).value, f);
  }

  /** `noecn` (and likewise `nobytemode`) still sends its record, with value
      zero, yet the printer shows nothing for it. */
  lemma SwitchedOffFlagSentButSilent(s: Settings, f: Formatters, t: Tag)
    requires (t == Ecn && s.ecn == Some(false)) || (t == Bytemode && s.bytemode == Some(false))
    ensures Find(Emit(s), t) == Some(Record(t, U32_SIZE, 0))
    ensures var out := PrintOpt(Some(Emit(s)), f).out;
      forall i :: 0 <= i < |out| ==> !Leads(out[i], t)
  {
    EmitContents(s);
    assert Find(Emit(s), t) == Some(RecordOf(s, t));
    PrintAfterEmit(s, f);
    assert !Printable(s, t);
  }
}
