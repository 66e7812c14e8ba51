/** pi_parse_opt: the token loop that validates the PI options and the
    emission of the TCA_OPTIONS nest into the request message.

    Walk is the specification of the loop: it reads the tokens from the left
    and threads the settings through; ParseOpt is the loop itself, proved
    against Walk, followed by the emission, proved against Emit. */
module PiParse {

  import opened Wrappers
  import opened Netlink
  import opened TcUtil

  const A_MAX: nat := 10
  const B_MAX: nat := 1

  /** The loop's locals. A flag that was never mentioned is None (the C
      sentinel -1), `ecn`/`bytemode` give Some(true), `noecn`/`nobytemode`
      Some(false). */
  datatype Settings = Settings(
    limit: U32, qref: U32, w: U32, a: U64, b: U64,
    ecn: Option<bool>, bytemode: Option<bool>)

  /** The locals' initial values. */
  const Unset: Settings := Settings(0, 0, 0, 0, 0, None, None)

  /** Why a parse fails: a key with no value token after it (NEXT_ARG), a
      value the helper rejected or that is over its bound, `help`, or a token
      that is not an option name. */
  datatype ParseError =
    | MissingValue(key: string)
    | Illegal(key: string)
    | Help
    | Unknown(token: string)

  /** The words the loop's strcmp chain recognises; NotKeyword is every
      other token. */
  datatype Keyword =
    | KwLimit | KwQref | KwW | KwA | KwB
    | KwEcn | KwNoEcn | KwBytemode | KwNoBytemode
    | KwHelp | NotKeyword
  {
    predicate TakesValue()
    {
      KwLimit? || KwQref? || KwW? || KwA? || KwB?
    }

    predicate IsFlag()
    {
      KwEcn? || KwNoEcn? || KwBytemode? || KwNoBytemode?
    }
  }

  /** The strcmp chain, in the order the loop tests the names. */
  function Classify(t: string): (k: Keyword)
    ensures k != NotKeyword ==> t == Name(k)
    ensures k == NotKeyword <==> t !in OptionNames
  {
    if t == "limit" then KwLimit
    else if t == "qref" then KwQref
    else if t == "w" then KwW
    else if t == "a" then KwA
    else if t == "b" then KwB
    else if t == "ecn" then KwEcn
    else if t == "noecn" then KwNoEcn
    else if t == "bytemode" then KwBytemode
    else if t == "nobytemode" then KwNoBytemode
    else if t == "help" then KwHelp
    else NotKeyword
  }

  /** Every token the strcmp chain matches. */
  const OptionNames: set<string> :=
    {"limit", "qref", "w", "a", "b", "ecn", "noecn", "bytemode", "nobytemode", "help"}

  /** The token a keyword is spelled as. */
  function Name(k: Keyword): string
  {
    match k
    case KwLimit => "limit"
    case KwQref => "qref"
    case KwW => "w"
    case KwA => "a"
    case KwB => "b"
    case KwEcn => "ecn"
    case KwNoEcn => "noecn"
    case KwBytemode => "bytemode"
    case KwNoBytemode => "nobytemode"
    case KwHelp => "help"
    case NotKeyword => ""
  }

  predicate Bounded(s: Settings)
  {
    s.a <= A_MAX && s.b <= B_MAX
  }

  /** The helper a value key calls on its value token, with the bound check
      for `a` and `b`; None means the branch prints "Illegal" and fails. */
  function Scan(sc: Scanners, k: Keyword, arg: string): (v: Option<nat>)
    requires k.TakesValue()
    ensures k == KwA && v.Some? ==> v.value <= A_MAX
    ensures k == KwB && v.Some? ==> v.value <= B_MAX
    ensures v.Some? ==> v.value < U32_LIMIT
    ensures (k == KwLimit || k == KwQref) ==> v == sc.getUnsigned(arg)
    ensures k == KwW ==> v == sc.getTime(arg)
    ensures k == KwA ==> v == (if sc.getU64(arg).Some? && sc.getU64(arg).value <= A_MAX then sc.getU64(arg) else None)
    ensures k == KwB ==> v == (if sc.getU64(arg).Some? && sc.getU64(arg).value <= B_MAX then sc.getU64(arg) else None)
  {
    match k
    case KwLimit | KwQref =>
      (match sc.getUnsigned(arg)
       case None => None
       case Some(x) => Some(x))
    case KwW =>
      (match sc.getTime(arg)
       case None => None
       case Some(x) => Some(x))
    case KwA =>
      (match sc.getU64(arg)
       case None => None
       case Some(x) => if x > A_MAX then None else Some(x))
    case KwB =>
      (match sc.getU64(arg)
       case None => None
       case Some(x) => if x > B_MAX then None else Some(x))
  }

  /** The settings after one accepted value key. */
  function SetValue(s: Settings, k: Keyword, v: nat): Settings
    requires k.TakesValue()
    requires v < U32_LIMIT
  {
    match k
    case KwLimit => s.(limit := v)
    case KwQref => s.(qref := v)
    case KwW => s.(w := v)
    case KwA => s.(a := v)
    case KwB => s.(b := v)
  }

  /** The settings after one flag token: the last one mentioned wins. */
  function SetFlag(s: Settings, k: Keyword): Settings
    requires k.IsFlag()
  {
    match k
    case KwEcn => s.(ecn := Some(true))
    case KwNoEcn => s.(ecn := Some(false))
    case KwBytemode => s.(bytemode := Some(true))
    case KwNoBytemode => s.(bytemode := Some(false))
  }

  /** The token loop from settings `s`: value keys take two tokens, flags
      one; the first failure ends the walk. Accepted settings stay within
      the `a`/`b` bounds. */
  function Walk(sc: Scanners, args: seq<string>, s: Settings): (r: Result<Settings, ParseError>)
    ensures Bounded(s) && r.Ok? ==> Bounded(r.value)
    decreases |args|
  {
    if args == [] then Ok(s)
    else
      var k := Classify(args[0]);
      if k.TakesValue() then
        if |args| == 1 then Err(MissingValue(args[0]))
        else
          match Scan(sc, k, args[1])
          case None => Err(Illegal(args[0]))
          case Some(v) => Walk(sc, args[2..], SetValue(s, k, v))
      else if k.IsFlag() then Walk(sc, args[1..], SetFlag(s, k))
      else if k == KwHelp then Err(Help)
      else Err(Unknown(args[0]))
  }

  /** The outcome of the whole token list, from the initial locals. */
  function Parse(sc: Scanners, args: seq<string>): (r: Result<Settings, ParseError>)
    ensures r.Ok? ==> Bounded(r.value)
  {
    Walk(sc, args, Unset)
  }

  /** The order in which the records are written into the nest. */
  const EmitOrder: seq<Tag> := [Limit, W, Qref, A, B, Ecn, Bytemode]

  /** Whether the record of a tag is written: a numeric parameter when it is
      non-zero, a flag when one of its tokens appeared. */
  predicate Emitted(s: Settings, t: Tag)
  {
    match t
    case Limit => s.limit != 0
    case Qref => s.qref != 0
    case W => s.w != 0
    case A => s.a != 0
    case B => s.b != 0
    case Ecn => s.ecn.Some?
    case Bytemode => s.bytemode.Some?
    case Other(_) => false
  }

  function FlagValue(f: Option<bool>): nat
  {
    if f == Some(true) then 1 else 0
  }

  /** The record written for a tag: `a` and `b` with the size of an
      unsigned long, the others with four bytes. */
  function RecordOf(s: Settings, t: Tag): Record
  {
    match t
    case Limit => Record(Limit, U32_SIZE, s.limit)
    case Qref => Record(Qref, U32_SIZE, s.qref)
    case W => Record(W, U32_SIZE, s.w)
    case A => Record(A, U64_SIZE, s.a)
    case B => Record(B, U64_SIZE, s.b)
    case Ecn => Record(Ecn, U32_SIZE, FlagValue(s.ecn))
    case Bytemode => Record(Bytemode, U32_SIZE, FlagValue(s.bytemode))
    case Other(c) => Record(Other(c), 0, 0)
  }

  /** The record of one tag, if it is written. */
  function Piece(s: Settings, t: Tag): seq<Record>
  {
    if Emitted(s, t) then [RecordOf(s, t)] else []
  }

  /** The records written for the tags of `order`, in that order. */
  function RecordsIn(order: seq<Tag>, s: Settings): seq<Record>
  {
    if order == [] then [] else Piece(s, order[0]) + RecordsIn(order[1..], s)
  }

  /** The content of the TCA_OPTIONS nest for accepted settings. */
  function Emit(s: Settings): seq<Record>
  {
    RecordsIn(EmitOrder, s)
  }

  /** What the nest holds: a record for exactly the non-zero numeric
      parameters and the mentioned flags, each with the value the loop
      left; no type twice; the types in the order limit, w, qref, a, b,
      ecn, bytemode. */
  lemma EmitContents(s: Settings)
    ensures forall t :: Find(Emit(s), t) == (if Emitted(s, t) then Some(RecordOf(s, t)) else None)
    ensures forall i, j :: 0 <= i < j < |Emit(s)| ==>
      Position(EmitOrder, Emit(s)[i].tag) < Position(EmitOrder, Emit(s)[j].tag)
    ensures DistinctTags(Emit(s))
  {
    RecordsInFind(EmitOrder, s);
    RecordsInOrdered(EmitOrder, s);
    assert forall t :: FoundIn(EmitOrder, s, t) == (if Emitted(s, t) then Some(RecordOf(s, t)) else None);
  }

  lemma {:induction false} RecordsInFind(order: seq<Tag>, s: Settings)
    requires NoDuplicates(order)
    ensures forall t :: Find(RecordsIn(order, s), t) == FoundIn(order, s, t)
  {
    if order != [] {
      RecordsInFind(order[1..], s);
      var head := Piece(s, order[0]);
      assert RecordsIn(order, s) == head + RecordsIn(order[1..], s);
      forall t ensures Find(RecordsIn(order, s), t) == FoundIn(order, s, t)
      {
        FindAppend(head, RecordsIn(order[1..], s), t);
        assert t in order <==> t == order[0] || t in order[1..];
        if t == order[0] {
          assert t !in order[1..];
        }
      }
    }
  }

  /** What a lookup in RecordsIn(order, s) should give. */
  function FoundIn(order: seq<Tag>, s: Settings, t: Tag): Option<Record>
  {
    if t in order && Emitted(s, t) then Some(RecordOf(s, t)) else None
  }

  lemma {:induction false} FindAppend(xs: seq<Record>, ys: seq<Record>, t: Tag)
    ensures Find(xs + ys, t) == if Find(xs, t).Some? then Find(xs, t) else Find(ys, t)
  {
    if xs != [] {
      assert (xs + ys)[1..] == xs[1..] + ys;
      FindAppend(xs[1..], ys, t);
    } else {
      assert xs + ys == ys;
    }
  }

  lemma {:induction false} RecordsInOrdered(order: seq<Tag>, s: Settings)
    requires NoDuplicates(order)
    ensures forall k :: 0 <= k < |RecordsIn(order, s)| ==> RecordsIn(order, s)[k].tag in order
    ensures forall i, j :: 0 <= i < j < |RecordsIn(order, s)| ==>
      Position(order, RecordsIn(order, s)[i].tag) < Position(order, RecordsIn(order, s)[j].tag)
  {
    if order != [] {
      RecordsInOrdered(order[1..], s);
      var tail := RecordsIn(order[1..], s);
      forall k | 0 <= k < |tail|
        ensures tail[k].tag != order[0]
        ensures Position(order, tail[k].tag) == 1 + Position(order[1..], tail[k].tag)
      {
      }
    }
  }

  /** pi_parse_opt. On success exactly one TCA_OPTIONS nest holding
      Emit(settings) is appended and 0 is returned; on any failure -1 is
      returned with the diagnostic and the message is left as it was. */
  method ParseOpt(sc: Scanners, args: seq<string>, n: NlMsg) returns (status: int, diag: Option<ParseError>)
    modifies n
    ensures Parse(sc, args).Ok? ==>
      status == 0 && diag == None && n.attrs == old(n.attrs) + [TcaOptions(Emit(Parse(sc, args).value))]
    ensures Parse(sc, args).Ok? ==> n.nest == []
    ensures Parse(sc, args).Err? ==>
      status == -1 && diag == Some(Parse(sc, args).error) && n.attrs == old(n.attrs) && n.nest == old(n.nest)
  {
    var limit: U32, qref: U32, w: U32, a: U64, b: U64 := 0, 0, 0, 0, 0;
    var ecn: int, bytemode: int := -1, -1;
    var i := 0;
    while i < |args|
      invariant 0 <= i <= |args|
      invariant -1 <= ecn <= 1 && -1 <= bytemode <= 1
      invariant Parse(sc, args) ==
        Walk(sc, args[i..], Settings(limit, qref, w, a, b, Tri(ecn), Tri(bytemode)))
      invariant n.attrs == old(n.attrs) && n.nest == old(n.nest)
    {
      var key := args[i];
      var k := Classify(key);
      WalkAt(sc, args, i, Settings(limit, qref, w, a, b, Tri(ecn), Tri(bytemode)));
      if k.TakesValue() {
        // NEXT_ARG: the value token must exist
        if i + 1 == |args| {
          return -1, Some(MissingValue(key));
        }
        i := i + 1;
        match k
        case KwLimit =>
          var v := sc.getUnsigned(args[i]);
          if v.None? {
            return -1, Some(Illegal(key));
          }
          limit := v.value;
        case KwQref =>
          var v := sc.getUnsigned(args[i]);
          if v.None? {
            return -1, Some(Illegal(key));
          }
          qref := v.value;
        case KwW =>
          var v := sc.getTime(args[i]);
          if v.None? {
            return -1, Some(Illegal(key));
          }
          w := v.value;
        case KwA =>
          var v := sc.getU64(args[i]);
          if v.None? || v.value > A_MAX {
            return -1, Some(Illegal(key));
          }
          a := v.value;
        case KwB =>
          var v := sc.getU64(args[i]);
          if v.None? || v.value > B_MAX {
            return -1, Some(Illegal(key));
          }
          b := v.value;
      } else {
        match k
        case KwEcn =>
          ecn := 1;
        case KwNoEcn =>
          ecn := 0;
        case KwBytemode =>
          bytemode := 1;
        case KwNoBytemode =>
          bytemode := 0;
        case KwHelp =>
          return -1, Some(Help);
        case NotKeyword =>
          return -1, Some(Unknown(key));
      }
      i := i + 1;
    }
    ghost var s := Settings(limit, qref, w, a, b, Tri(ecn), Tri(bytemode));
    assert args[i..] == [];
    assert Parse(sc, args) == Ok(s);
    AddOptions(n, limit, w, qref, a, b, ecn, bytemode);
    return 0, None;
  }

  /** Lines 106-123 of pi_parse_opt: open the TCA_OPTIONS nest, write a
      record for each non-zero parameter and each mentioned flag, in the
      order limit, w, qref, a, b, ecn, bytemode, and close the nest. */
  method AddOptions(n: NlMsg, limit: U32, w: U32, qref: U32, a: U64, b: U64, ecn: int, bytemode: int)
    requires -1 <= ecn <= 1 && -1 <= bytemode <= 1
    modifies n
    ensures n.attrs == old(n.attrs) + [TcaOptions(Emit(Settings(limit, qref, w, a, b, Tri(ecn), Tri(bytemode))))]
    ensures n.nest == []
  {
    n.AddNest();
    ghost var beforeLimit := n.nest;
    if limit != 0 {
      n.AddAttr(Record(Limit, U32_SIZE, limit));
    }
    assert n.nest == (if limit != 0 then [Record(Limit, U32_SIZE, limit)] else []);
    ghost var beforeW := n.nest;
    if w != 0 {
      n.AddAttr(Record(W, U32_SIZE, w));
    }
    assert n.nest == beforeW + (if w != 0 then [Record(W, U32_SIZE, w)] else []);
    ghost var beforeQref := n.nest;
    if qref != 0 {
      n.AddAttr(Record(Qref, U32_SIZE, qref));
    }
    assert n.nest == beforeQref + (if qref != 0 then [Record(Qref, U32_SIZE, qref)] else []);
    ghost var beforeA := n.nest;
    if a != 0 {
      n.AddAttr(Record(A, U64_SIZE, a));
    }
    assert n.nest == beforeA + (if a != 0 then [Record(A, U64_SIZE, a)] else []);
    ghost var beforeB := n.nest;
    if b != 0 {
      n.AddAttr(Record(B, U64_SIZE, b));
    }
    assert n.nest == beforeB + (if b != 0 then [Record(B, U64_SIZE, b)] else []);
    ghost var beforeEcn := n.nest;
    if ecn != -1 {
      n.AddAttr(Record(Ecn, U32_SIZE, ecn));
    }
    assert n.nest == beforeEcn + (if ecn != -1 then [Record(Ecn, U32_SIZE, ecn)] else []);
    ghost var beforeBytemode := n.nest;
    if bytemode != -1 {
      n.AddAttr(Record(Bytemode, U32_SIZE, bytemode));
    }
    assert n.nest == beforeBytemode + (if bytemode != -1 then [Record(Bytemode, U32_SIZE, bytemode)] else []);
    EmitOfLocals(limit, w, qref, a, b, ecn, bytemode);
    n.NestEnd();
  }

  /** The C tri-state flag (-1 unset, 0 off, 1 on) as a Settings flag. */
  function Tri(x: int): (f: Option<bool>)
    requires -1 <= x <= 1
    ensures f.None? <==> x == -1
    ensures f.Some? ==> FlagValue(f) == x
  {
    if x == -1 then None else Some(x == 1)
  }

  /** Emit written out tag by tag, in EmitOrder. */
  lemma EmitSpelledOut(s: Settings)
    ensures Emit(s) == Piece(s, Limit) + Piece(s, W) + Piece(s, Qref) + Piece(s, A)
      + Piece(s, B) + Piece(s, Ecn) + Piece(s, Bytemode)
  {
    var o := EmitOrder;
    assert o[1..] == [W, Qref, A, B, Ecn, Bytemode];
    assert o[2..] == [Qref, A, B, Ecn, Bytemode];
    assert o[3..] == [A, B, Ecn, Bytemode];
    assert o[4..] == [B, Ecn, Bytemode];
    assert o[5..] == [Ecn, Bytemode];
    assert o[6..] == [Bytemode];
    assert o[7..] == [];
    calc {
      RecordsIn(o, s);
      Piece(s, Limit) + RecordsIn(o[1..], s);
      { assert o[1..][1..] == o[2..]; }
      Piece(s, Limit) + Piece(s, W) + RecordsIn(o[2..], s);
      { assert o[2..][1..] == o[3..]; }
      Piece(s, Limit) + Piece(s, W) + Piece(s, Qref) + RecordsIn(o[3..], s);
      { assert o[3..][1..] == o[4..]; }
      Piece(s, Limit) + Piece(s, W) + Piece(s, Qref) + Piece(s, A) + RecordsIn(o[4..], s);
      { assert o[4..][1..] == o[5..]; }
      Piece(s, Limit) + Piece(s, W) + Piece(s, Qref) + Piece(s, A) + Piece(s, B) + RecordsIn(o[5..], s);
      { assert o[5..][1..] == o[6..]; }
      Piece(s, Limit) + Piece(s, W) + Piece(s, Qref) + Piece(s, A) + Piece(s, B) + Piece(s, Ecn)
        + RecordsIn(o[6..], s);
      { assert o[6..][1..] == o[7..]; }
      Piece(s, Limit) + Piece(s, W) + Piece(s, Qref) + Piece(s, A) + Piece(s, B) + Piece(s, Ecn)
        + Piece(s, Bytemode) + RecordsIn(o[7..], s);
    }
  }

  /** Emit in terms of the loop's locals, as lines 107-121 test them. */
  lemma EmitOfLocals(limit: U32, w: U32, qref: U32, a: U64, b: U64, ecn: int, bytemode: int)
    requires -1 <= ecn <= 1 && -1 <= bytemode <= 1
    ensures Emit(Settings(limit, qref, w, a, b, Tri(ecn), Tri(bytemode))) ==
      (if limit != 0 then [Record(Limit, U32_SIZE, limit)] else [])
      + (if w != 0 then [Record(W, U32_SIZE, w)] else [])
      + (if qref != 0 then [Record(Qref, U32_SIZE, qref)] else [])
      + (if a != 0 then [Record(A, U64_SIZE, a)] else [])
      + (if b != 0 then [Record(B, U64_SIZE, b)] else [])
      + (if ecn != -1 then [Record(Ecn, U32_SIZE, ecn)] else [])
      + (if bytemode != -1 then [Record(Bytemode, U32_SIZE, bytemode)] else [])
  {
    var s := Settings(limit, qref, w, a, b, Tri(ecn), Tri(bytemode));
    EmitSpelledOut(s);
  }

  /** One iteration of the token loop, read at position i. */
  lemma WalkAt(sc: Scanners, args: seq<string>, i: nat, s: Settings)
    requires i < |args|
    ensures var k := Classify(args[i]);
      Walk(sc, args[i..], s) ==
        if k.TakesValue() then
          if i + 1 == |args| then Err(MissingValue(args[i]))
          else
            match Scan(sc, k, args[i + 1])
            case None => Err(Illegal(args[i]))
            case Some(v) => Walk(sc, args[i + 2..], SetValue(s, k, v))
        else if k.IsFlag() then Walk(sc, args[i + 1..], SetFlag(s, k))
        else if k == KwHelp then Err(Help)
        else Err(Unknown(args[i]))
  {
    var rest := args[i..];
    assert rest[0] == args[i];
    if i + 1 < |args| {
      assert rest[1] == args[i + 1] && rest[2..] == args[i + 2..];
    }
    assert rest[1..] == args[i + 1..];
  }

  // Properties of the token loop

  /** An empty token list is accepted and gives an empty nest. */
  lemma EmptyArgs(sc: Scanners)
    ensures Parse(sc, []) == Ok(Unset) && Emit(Unset) == []
  {
  }

  /** Once a prefix is accepted, the rest of the list is walked from the
      settings the prefix left. */
  lemma {:induction false} WalkAppend(sc: Scanners, p: seq<string>, q: seq<string>, s: Settings)
    requires Walk(sc, p, s).Ok?
    ensures Walk(sc, p + q, s) == Walk(sc, q, Walk(sc, p, s).value)
    decreases |p|
  {
    if p == [] {
      assert p + q == q;
    } else {
      var k := Classify(p[0]);
      assert (p + q)[0] == p[0];
      if k.TakesValue() {
        assert (p + q)[1] == p[1] && (p + q)[2..] == p[2..] + q;
        var v := Scan(sc, k, p[1]).value;
        WalkAppend(sc, p[2..], q, SetValue(s, k, v));
      } else {
        assert (p + q)[1..] == p[1..] + q;
        WalkAppend(sc, p[1..], q, SetFlag(s, k));
      }
    }
  }

  /** A token that is not an option name, or `help`, in a key position
      (right after an accepted prefix) fails the parse whatever follows. */
  lemma RejectsUnrecognised(sc: Scanners, p: seq<string>, t: string, rest: seq<string>)
    requires Parse(sc, p).Ok?
    requires t !in OptionNames || t == "help"
    ensures t == "help" ==> Parse(sc, p + [t] + rest) == Err(Help)
    ensures t != "help" ==> Parse(sc, p + [t] + rest) == Err(Unknown(t))
  {
    assert p + [t] + rest == p + ([t] + rest);
    WalkAppend(sc, p, [t] + rest, Unset);
  }

  /** A value key as the last token fails for want of its value. */
  lemma RejectsMissingValue(sc: Scanners, p: seq<string>, key: string)
    requires Parse(sc, p).Ok?
    requires Classify(key).TakesValue()
    ensures Parse(sc, p + [key]) == Err(MissingValue(key))
  {
    WalkAppend(sc, p, [key], Unset);
  }

  /** An `a` above A_MAX or a `b` above B_MAX fails the parse, whatever
      follows. */
  lemma RejectsOutOfBound(sc: Scanners, p: seq<string>, key: string, v: string, rest: seq<string>)
    requires Parse(sc, p).Ok?
    requires key == "a" || key == "b"
    requires sc.getU64(v).Some?
    requires sc.getU64(v).value > (if key == "a" then A_MAX else B_MAX)
    ensures Parse(sc, p + [key, v] + rest) == Err(Illegal(key))
  {
    assert p + [key, v] + rest == p + ([key, v] + rest);
    WalkAppend(sc, p, [key, v] + rest, Unset);
    assert ([key, v] + rest)[2..] == rest;
  }

  /** The loop's locals that the keywords write. */
  datatype Local = LimitVar | QrefVar | WVar | AVar | BVar | EcnVar | BytemodeVar

  /** The local a keyword writes; `help` and non-keywords write none. */
  function LocalOf(k: Keyword): (l: Option<Local>)
    ensures l.Some? <==> k.TakesValue() || k.IsFlag()
  {
    match k
    case KwLimit => Some(LimitVar)
    case KwQref => Some(QrefVar)
    case KwW => Some(WVar)
    case KwA => Some(AVar)
    case KwB => Some(BVar)
    case KwEcn | KwNoEcn => Some(EcnVar)
    case KwBytemode | KwNoBytemode => Some(BytemodeVar)
    case KwHelp | NotKeyword => None
  }

  /** The value of a local, flags as the C tri-state -1 / 0 / 1. */
  function Get(s: Settings, l: Local): int
  {
    match l
    case LimitVar => s.limit
    case QrefVar => s.qref
    case WVar => s.w
    case AVar => s.a
    case BVar => s.b
    case EcnVar => if s.ecn.None? then -1 else FlagValue(s.ecn)
    case BytemodeVar => if s.bytemode.None? then -1 else FlagValue(s.bytemode)
  }

  /** Tokens that do not name a local's keyword leave that local alone. */
  lemma {:induction false} WalkFrame(sc: Scanners, q: seq<string>, s: Settings, l: Local)
    requires Walk(sc, q, s).Ok?
    requires forall t :: t in q ==> LocalOf(Classify(t)) != Some(l)
    ensures Get(Walk(sc, q, s).value, l) == Get(s, l)
    decreases |q|
  {
    if q != [] {
      var k := Classify(q[0]);
      assert q[0] in q;
      if k.TakesValue() {
        var v := Scan(sc, k, q[1]).value;
        assert forall t :: t in q[2..] ==> t in q;
        WalkFrame(sc, q[2..], SetValue(s, k, v), l);
        SetValueFrame(s, k, v, l);
      } else {
        assert forall t :: t in q[1..] ==> t in q;
        WalkFrame(sc, q[1..], SetFlag(s, k), l);
        SetFlagFrame(s, k, l);
      }
    }
  }

  lemma SetValueFrame(s: Settings, k: Keyword, v: nat, l: Local)
    requires k.TakesValue() && v < U32_LIMIT && LocalOf(k) != Some(l)
    ensures Get(SetValue(s, k, v), l) == Get(s, l)
  {
  }

  lemma SetFlagFrame(s: Settings, k: Keyword, l: Local)
    requires k.IsFlag() && LocalOf(k) != Some(l)
    ensures Get(SetFlag(s, k), l) == Get(s, l)
  {
  }

  /** When a value key appears more than once, the last occurrence wins:
      the local holds what the helper read from its value token. */
  lemma LastValueWins(sc: Scanners, p: seq<string>, key: string, v: string, q: seq<string>)
    requires Parse(sc, p).Ok?
    requires Classify(key).TakesValue()
    requires Parse(sc, p + [key, v] + q).Ok?
    requires forall t :: t in q ==> LocalOf(Classify(t)) != LocalOf(Classify(key))
    ensures Scan(sc, Classify(key), v) == Some(Get(Parse(sc, p + [key, v] + q).value, LocalOf(Classify(key)).value))
  {
    var k := Classify(key);
    assert p + [key, v] + q == p + ([key, v] + q);
    WalkAppend(sc, p, [key, v] + q, Unset);
    assert ([key, v] + q)[2..] == q;
    var s1 := SetValue(Parse(sc, p).value, k, Scan(sc, k, v).value);
    WalkFrame(sc, q, s1, LocalOf(k).value);
  }

  /** When a flag is given more than once (in either spelling), the last
      token wins: `ecn`/`bytemode` leave 1, `noecn`/`nobytemode` leave 0. */
  lemma LastFlagWins(sc: Scanners, p: seq<string>, flag: string, q: seq<string>)
    requires Parse(sc, p).Ok?
    requires Classify(flag).IsFlag()
    requires Parse(sc, p + [flag] + q).Ok?
    requires forall t :: t in q ==> LocalOf(Classify(t)) != LocalOf(Classify(flag))
    ensures Get(Parse(sc, p + [flag] + q).value, LocalOf(Classify(flag)).value) ==
      if flag == "ecn" || flag == "bytemode" then 1 else 0
  {
    var k := Classify(flag);
    assert p + [flag] + q == p + ([flag] + q);
    WalkAppend(sc, p, [flag] + q, Unset);
    assert ([flag] + q)[1..] == q;
    WalkFrame(sc, q, SetFlag(Parse(sc, p).value, k), LocalOf(k).value);
    SetFlagValue(Parse(sc, p).value, k);
    assert flag == Name(k);
  }

  lemma SetFlagValue(s: Settings, k: Keyword)
    requires k.IsFlag()
    ensures Get(SetFlag(s, k), LocalOf(k).value) == if k == KwEcn || k == KwBytemode then 1 else 0
  {
  }

  /** A failed parse names a token of its input: the unrecognised token,
      or the value key whose value was missing or illegal. */
  lemma {:induction false} WalkErrorNamesToken(sc: Scanners, args: seq<string>, s: Settings)
    requires Walk(sc, args, s).Err?
    ensures var e := Walk(sc, args, s).error;
      (e.Unknown? ==> e.token in args && e.token !in OptionNames) &&
      (e.Help? ==> "help" in args) &&
      ((e.MissingValue? || e.Illegal?) ==> e.key in args && Classify(e.key).TakesValue())
    decreases |args|
  {
    var k := Classify(args[0]);
    if k.TakesValue() && |args| > 1 && Scan(sc, k, args[1]).Some? {
      WalkErrorNamesToken(sc, args[2..], SetValue(s, k, Scan(sc, k, args[1]).value));
      assert forall t :: t in args[2..] ==> t in args;
    } else if k.IsFlag() {
      WalkErrorNamesToken(sc, args[1..], SetFlag(s, k));
      assert forall t :: t in args[1..] ==> t in args;
    } else {
      assert args[0] in args;
    }
  }
}
