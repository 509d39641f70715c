/** Policy statements: the token parser, a printer, and the text they agree on. */
module PolicyParser {
  import opened Common
  import opened PolicyLexer

  datatype Xperm = Xperm(low: u16, high: u16, reset: bool)

  type NameList = seq<string>

  datatype Statement =
    | Allow(src: NameList, target: NameList, cls: NameList, perm: NameList)
    | Deny(src: NameList, target: NameList, cls: NameList, perm: NameList)
    | AuditAllow(src: NameList, target: NameList, cls: NameList, perm: NameList)
    | DontAudit(src: NameList, target: NameList, cls: NameList, perm: NameList)
    | AllowXperm(src: NameList, target: NameList, cls: NameList, xperm: seq<Xperm>)
    | AuditAllowXperm(src: NameList, target: NameList, cls: NameList, xperm: seq<Xperm>)
    | DontAuditXperm(src: NameList, target: NameList, cls: NameList, xperm: seq<Xperm>)
    | Permissive(types: NameList)
    | Enforce(types: NameList)
    | TypeAttribute(types: NameList, attrs: NameList)
    | Type(name: string, attrs: NameList)
    | Attribute(name: string)
    | TypeTransition(from: string, to: string, of: string, default: string, object_: string)
    | TypeChange(from: string, to: string, of: string, default: string)
    | TypeMember(from: string, to: string, of: string, default: string)
    | GenfsCon(fsName: string, path: string, context: string)

  datatype ParseError =
    | AvtabAv(action: Token)
    | AvtabXperms(action: Token)
    | AvtabType(action: Token)
    | TypeState(action: Token)
    | TypeAttr
    | TypeTrans
    | NewType
    | NewAttr
    | GenfsConError
    | ShowHelp
    | UnknownAction(action: Token)

  datatype ParseResult = Ok(statement: Statement) | Err(error: ParseError)

  // ---------------------------------------------------------------------------------------
  // The grammar: what is read from the front of the tokens, and what is left
  // ---------------------------------------------------------------------------------------

  datatype Parsed<T> = Got(value: T, rest: seq<Token>) | Bad

  function Id(ts: seq<Token>): Parsed<string> {
    if ts != [] && ts[0].ID? then Got(ts[0].name, ts[1..]) else Bad
  }

  function NamesUpToBrace(ts: seq<Token>, names: NameList): Parsed<NameList> {
    if ts == [] then Bad
    else match ts[0]
      case ID(name) => NamesUpToBrace(ts[1..], names + [name])
      case RB => Got(names, ts[1..])
      case _ => Bad
  }

  function Term(ts: seq<Token>): Parsed<NameList> {
    if ts == [] then Bad
    else match ts[0]
      case ID(name) => Got([name], ts[1..])
      case LB => NamesUpToBrace(ts[1..], [])
      case _ => Bad
  }

  /** Names and stars up to the closing brace; one star empties the list for good. */
  function StarNames(ts: seq<Token>, names: Option<NameList>): Parsed<NameList> {
    if ts == [] then Bad
    else match ts[0]
      case ID(name) => StarNames(ts[1..], if names.Some? then Some(names.value + [name]) else None)
      case ST => StarNames(ts[1..], None)
      case RB => Got(if names.Some? then names.value else [], ts[1..])
      case _ => Bad
  }

  function Sterm(ts: seq<Token>): Parsed<NameList> {
    if ts == [] then Bad
    else match ts[0]
      case ID(name) => Got([name], ts[1..])
      case ST => Got([], ts[1..])
      case LB => StarNames(ts[1..], Some([]))
      case _ => Bad
  }

  function OneXperm(ts: seq<Token>, reset: bool): Parsed<Xperm> {
    if ts == [] || !ts[0].HX? then Bad
    else if |ts| == 1 || ts[1] != HP then Got(Xperm(ts[0].value, ts[0].value, reset), ts[1..])
    else if |ts| > 2 && ts[2].HX? then Got(Xperm(ts[0].value, ts[2].value, reset), ts[3..])
    else Bad
  }

  function XpermList(ts: seq<Token>, reset: bool, xperms: seq<Xperm>): Parsed<seq<Xperm>>
    decreases |ts|
  {
    match OneXperm(ts, reset)
    case Bad => Bad
    case Got(x, rest) =>
      if rest != [] && rest[0] == RB then Got(xperms + [x], rest[1..])
      else XpermList(rest, reset, xperms + [x])
  }

  function Xperms(ts: seq<Token>): Parsed<seq<Xperm>> {
    if ts == [] then Bad
    else match ts[0]
      case TL => if |ts| > 1 && ts[1] == LB then XpermList(ts[2..], true, []) else Bad
      case LB => XpermList(ts[1..], false, [])
      case ST => Got([Xperm(0, 0xFFFF, false)], ts[1..])
      case HX(n) =>
        if n == 0 then Got([Xperm(0, 0xFFFF, true)], ts[1..])
        else (match OneXperm(ts, false)
              case Bad => Bad
              case Got(x, rest) => Got([x], rest))
      case _ => Bad
  }

  function Ioctl(ts: seq<Token>): Parsed<()> {
    if ts != [] && ts[0] == ID("ioctl") then Got((), ts[1..]) else Bad
  }

  // Several parts in a row, and nothing after them.

  datatype Sides = Sides(src: NameList, target: NameList, cls: NameList)

  function ThreeSterms(ts: seq<Token>): Parsed<Sides> {
    match Sterm(ts)
    case Bad => Bad
    case Got(src, r1) =>
      match Sterm(r1)
      case Bad => Bad
      case Got(target, r2) =>
        match Sterm(r2)
        case Bad => Bad
        case Got(cls, r3) => Got(Sides(src, target, cls), r3)
  }

  function AvParts(ts: seq<Token>): Option<(Sides, NameList)> {
    match ThreeSterms(ts)
    case Bad => None
    case Got(sides, r) =>
      match Sterm(r)
      case Bad => None
      case Got(perm, end) => if end == [] then Some((sides, perm)) else None
  }

  function XpermParts(ts: seq<Token>): Option<(Sides, seq<Xperm>)> {
    match ThreeSterms(ts)
    case Bad => None
    case Got(sides, r) =>
      match Ioctl(r)
      case Bad => None
      case Got(_, r1) =>
        match Xperms(r1)
        case Bad => None
        case Got(xperm, end) => if end == [] then Some((sides, xperm)) else None
  }

  function IdList(ts: seq<Token>): Option<NameList> {
    if ts == [] then Some([])
    else match Id(ts)
      case Bad => None
      case Got(name, r) => Prepend([name], IdList(r))
  }

  function Prepend(names: NameList, ids: Option<NameList>): Option<NameList> {
    match ids
    case Some(more) => Some(names + more)
    case None => None
  }

  lemma PrependTwice(a: NameList, b: NameList, ids: Option<NameList>)
    ensures Prepend(a, Prepend(b, ids)) == Prepend(a + b, ids)
    ensures Prepend([], ids) == ids
  {
    if ids.Some? {
      assert a + (b + ids.value) == a + b + ids.value && [] + ids.value == ids.value;
    }
  }

  function Av(action: Token, s: Sides, perm: NameList): Statement {
    match action
    case AL => Allow(s.src, s.target, s.cls, perm)
    case DN => Deny(s.src, s.target, s.cls, perm)
    case AA => AuditAllow(s.src, s.target, s.cls, perm)
    case _ => DontAudit(s.src, s.target, s.cls, perm)
  }

  function AvXperm(action: Token, s: Sides, xperm: seq<Xperm>): Statement {
    match action
    case AX => AllowXperm(s.src, s.target, s.cls, xperm)
    case AY => AuditAllowXperm(s.src, s.target, s.cls, xperm)
    case _ => DontAuditXperm(s.src, s.target, s.cls, xperm)
  }

  /** The statement that a list of tokens denotes, or the error it is refused with. */
  function Parse(ts: seq<Token>): ParseResult {
    if ts == [] then Err(ShowHelp) else ParseBody(ts[0], ts[1..])
  }

  function ParseBody(action: Token, body: seq<Token>): ParseResult {
    match action
    case AL | DN | AA | DA =>
      (match AvParts(body)
       case Some(p) => Ok(Av(action, p.0, p.1))
       case None => Err(AvtabAv(action)))
    case AX | AY | DX =>
      (match XpermParts(body)
       case Some(p) => Ok(AvXperm(action, p.0, p.1))
       case None => Err(AvtabXperms(action)))
    case PM | EF =>
      (match Sterm(body)
       case Got(types, rest) =>
         if rest != [] then Err(TypeState(action))
         else if action == PM then Ok(Permissive(types)) else Ok(Enforce(types))
       case Bad => Err(TypeState(action)))
    case TA =>
      (match Term(body)
       case Bad => Err(TypeAttr)
       case Got(types, rest) =>
         match Term(rest)
         case Got(attrs, end) => if end == [] then Ok(TypeAttribute(types, attrs)) else Err(TypeAttr)
         case Bad => Err(TypeAttr))
    case TY =>
      (match Id(body)
       case Bad => Err(NewType)
       case Got(name, rest) =>
         if rest == [] then Ok(Type(name, []))
         else match Term(rest)
           case Got(attrs, end) => if end == [] then Ok(Type(name, attrs)) else Err(NewType)
           case Bad => Err(NewType))
    case AT =>
      (match IdList(body)
       case Some(ids) => if |ids| == 1 then Ok(Attribute(ids[0])) else Err(NewAttr)
       case None => Err(NewAttr))
    case TC | TM =>
      (match IdList(body)
       case Some(ids) =>
         if |ids| != 4 then Err(AvtabType(action))
         else if action == TC then Ok(TypeChange(ids[0], ids[1], ids[2], ids[3]))
         else Ok(TypeMember(ids[0], ids[1], ids[2], ids[3]))
       case None => Err(AvtabType(action)))
    case TT =>
      (match IdList(body)
       case Some(ids) =>
         if |ids| == 4 then Ok(TypeTransition(ids[0], ids[1], ids[2], ids[3], ""))
         else if |ids| == 5 then Ok(TypeTransition(ids[0], ids[1], ids[2], ids[3], ids[4]))
         else Err(TypeTrans)
       case None => Err(TypeTrans))
    case GF =>
      (match IdList(body)
       case Some(ids) => if |ids| == 3 then Ok(GenfsCon(ids[0], ids[1], ids[2])) else Err(GenfsConError)
       case None => Err(GenfsConError))
    case _ => Err(UnknownAction(action))
  }

  // ---------------------------------------------------------------------------------------
  // The code
  // ---------------------------------------------------------------------------------------

  /** `Peekable<IntoIter<Token>>`. */
  class Tokens {
    var rest: seq<Token>

    constructor (tokens: seq<Token>)
      ensures rest == tokens
    {
      rest := tokens;
    }

    method Next() returns (t: Option<Token>)
      modifies this
      ensures old(rest) == [] ==> t == None && rest == []
      ensures old(rest) != [] ==> t == Some(old(rest)[0]) && rest == old(rest)[1..]
    {
      if rest == [] {
        return None;
      }
      t := Some(rest[0]);
      rest := rest[1..];
    }

    function Peek(): (t: Option<Token>)
      reads this
      ensures t.None? <==> rest == []
      ensures t.Some? ==> t.value == rest[0]
    {
      if rest == [] then None else Some(rest[0])
    }

    /** A part was read as `p` describes; after a refusal nothing more is read. */
    ghost predicate Read<T>(p: Parsed<T>, result: Option<T>)
      reads this
    {
      match p
      case Got(value, left) => result == Some(value) && rest == left
      case Bad => result == None
    }

    method ParseId() returns (name: Option<string>)
      modifies this
      ensures Read(Id(old(rest)), name)
    {
      var t := Next();
      name := if t.Some? && t.value.ID? then Some(t.value.name) else None;
    }

    method ParseTerm() returns (names: Option<NameList>)
      modifies this
      ensures Read(Term(old(rest)), names)
    {
      var t := Next();
      if t.Some? && t.value.ID? {
        return Some([t.value.name]);
      }
      if t != Some(LB) {
        return None;
      }
      var list := [];
      while true
        invariant NamesUpToBrace(rest, list) == Term(old(rest))
        decreases |rest|
      {
        t := Next();
        if t.Some? && t.value.ID? {
          list := list + [t.value.name];
        } else if t == Some(RB) {
          break;
        } else {
          return None;
        }
      }
      return Some(list);
    }

    method ParseSterm() returns (names: Option<NameList>)
      modifies this
      ensures Read(Sterm(old(rest)), names)
    {
      var t := Next();
      if t.Some? && t.value.ID? {
        return Some([t.value.name]);
      }
      if t == Some(ST) {
        return Some([]);
      }
      if t != Some(LB) {
        return None;
      }
      var list: Option<NameList> := Some([]);
      while true
        invariant StarNames(rest, list) == Sterm(old(rest))
        decreases |rest|
      {
        t := Next();
        if t.Some? && t.value.ID? {
          if list.Some? {
            list := Some(list.value + [t.value.name]);
          }
        } else if t == Some(ST) {
          list := None;
        } else if t == Some(RB) {
          break;
        } else {
          return None;
        }
      }
      return Some(if list.Some? then list.value else []);
    }

    method ParseXperm(reset: bool) returns (xperm: Option<Xperm>)
      modifies this
      ensures Read(OneXperm(old(rest), reset), xperm)
    {
      var t := Next();
      if t.None? || !t.value.HX? {
        return None;
      }
      var low := t.value.value;
      var high := low;
      if Peek() == Some(HP) {
        t := Next();
        t := Next();
        if t.None? || !t.value.HX? {
          return None;
        }
        high := t.value.value;
      }
      return Some(Xperm(low, high, reset));
    }

    method ParseXperms() returns (xperms: Option<seq<Xperm>>)
      modifies this
      ensures Read(Xperms(old(rest)), xperms)
    {
      hide OneXperm;
      var reset := false;
      if Peek() == Some(TL) {
        var _ := Next();
        if Peek() != Some(LB) {
          return None;
        }
        reset := true;
      }
      var t := Peek();
      if t == Some(LB) {
        t := Next();
        xperms := ParseXpermList(reset);
      } else if t == Some(ST) {
        t := Next();
        xperms := Some([Xperm(0, 0xFFFF, reset)]);
      } else if t == Some(HX(0)) {
        t := Next();
        xperms := Some([Xperm(0, 0xFFFF, true)]);
      } else if t.Some? && t.value.HX? {
        var x := ParseXperm(reset);
        xperms := if x.Some? then Some([x.value]) else None;
      } else {
        xperms := None;
      }
    }

    /** The loop of `parse_xperms` over a braced list. */
    method ParseXpermList(reset: bool) returns (xperms: Option<seq<Xperm>>)
      modifies this
      ensures Read(XpermList(old(rest), reset, []), xperms)
    {
      var list := [];
      while true
        invariant XpermList(rest, reset, list) == XpermList(old(rest), reset, [])
        decreases |rest|
      {
        var x := ParseXperm(reset);
        if x.None? {
          return None;
        }
        list := list + [x.value];
        if Peek() == Some(RB) {
          var _ := Next();
          break;
        }
      }
      return Some(list);
    }

    method MatchIoctl() returns (ok: Option<()>)
      modifies this
      ensures Read(Ioctl(old(rest)), ok)
    {
      var t := Next();
      ok := if t.Some? && t.value.ID? && t.value.name == "ioctl" then Some(()) else None;
    }

    method ParseSides() returns (sides: Option<Sides>)
      modifies this
      ensures Read(ThreeSterms(old(rest)), sides)
    {
      hide Sterm;
      var src := ParseSterm();
      if src.None? { return None; }
      var target := ParseSterm();
      if target.None? { return None; }
      var cls := ParseSterm();
      if cls.None? { return None; }
      return Some(Sides(src.value, target.value, cls.value));
    }

    method ParseAv(action: Token) returns (r: Option<Statement>)
      requires action in {AL, DN, AA, DA}
      modifies this
      ensures r == match AvParts(old(rest)) case Some(p) => Some(Av(action, p.0, p.1)) case None => None
    {
      hide Sterm, ThreeSterms;
      var sides := ParseSides();
      if sides.None? { return None; }
      var perm := ParseSterm();
      if perm.None? || Peek().Some? { return None; }
      return Some(Av(action, sides.value, perm.value));
    }

    method ParseAvXperm(action: Token) returns (r: Option<Statement>)
      requires action in {AX, AY, DX}
      modifies this
      ensures r == match XpermParts(old(rest)) case Some(p) => Some(AvXperm(action, p.0, p.1)) case None => None
    {
      hide Xperms, ThreeSterms, Ioctl;
      var sides := ParseSides();
      if sides.None? { return None; }
      var ioctl := MatchIoctl();
      if ioctl.None? { return None; }
      var xperm := ParseXperms();
      if xperm.None? || Peek().Some? { return None; }
      return Some(AvXperm(action, sides.value, xperm.value));
    }

    method ParseTypeState(action: Token) returns (r: Option<Statement>)
      requires action in {PM, EF}
      modifies this
      ensures (match r case Some(s) => Ok(s) case None => Err(TypeState(action))) == ParseBody(action, old(rest))
    {
      hide Sterm;
      var types := ParseSterm();
      if types.None? || Peek().Some? { return None; }
      return Some(if action == PM then Permissive(types.value) else Enforce(types.value));
    }

    method ParseTypeAttr() returns (r: Option<Statement>)
      modifies this
      ensures (match r case Some(s) => Ok(s) case None => Err(TypeAttr)) == ParseBody(TA, old(rest))
    {
      hide Term;
      var types := ParseTerm();
      if types.None? { return None; }
      var attrs := ParseTerm();
      if attrs.None? || Peek().Some? { return None; }
      return Some(TypeAttribute(types.value, attrs.value));
    }

    method ParseNewType() returns (r: Option<Statement>)
      modifies this
      ensures (match r case Some(s) => Ok(s) case None => Err(NewType)) == ParseBody(TY, old(rest))
    {
      hide Term, Id;
      var name := ParseId();
      if name.None? { return None; }
      if Peek().None? { return Some(Type(name.value, [])); }
      var attrs := ParseTerm();
      if attrs.None? || Peek().Some? { return None; }
      return Some(Type(name.value, attrs.value));
    }

    /** `parse_id` a number of times. */
    method ParseIds(n: nat) returns (ids: Option<NameList>)
      modifies this
      ensures ids.Some? ==> |ids.value| == n && IdList(old(rest)) == Prepend(ids.value, IdList(rest))
      ensures ids.None? ==> IdList(old(rest)).None? || |IdList(old(rest)).value| < n
    {
      var list := [];
      PrependTwice([], [], IdList(rest));
      while |list| < n
        invariant |list| <= n
        invariant IdList(old(rest)) == Prepend(list, IdList(rest))
      {
        var name := ParseId();
        if name.None? { return None; }
        PrependTwice(list, [name.value], IdList(rest));
        list := list + [name.value];
      }
      return Some(list);
    }

    method ParseNewAttr() returns (r: Option<Statement>)
      modifies this
      ensures (match r case Some(s) => Ok(s) case None => Err(NewAttr)) == ParseBody(AT, old(rest))
    {
      var ids := ParseIds(1);
      if ids.None? || Peek().Some? { return None; }
      return Some(Attribute(ids.value[0]));
    }

    method ParseAvType(action: Token) returns (r: Option<Statement>)
      requires action in {TC, TM}
      modifies this
      ensures (match r case Some(s) => Ok(s) case None => Err(AvtabType(action))) == ParseBody(action, old(rest))
    {
      var ids := ParseIds(4);
      if ids.None? || Peek().Some? { return None; }
      var n := ids.value;
      return Some(if action == TC then TypeChange(n[0], n[1], n[2], n[3]) else TypeMember(n[0], n[1], n[2], n[3]));
    }

    method ParseTypeTrans() returns (r: Option<Statement>)
      modifies this
      ensures (match r case Some(s) => Ok(s) case None => Err(TypeTrans)) == ParseBody(TT, old(rest))
    {
      var ids := ParseIds(4);
      if ids.None? { return None; }
      var object_: Option<string> := Some("");
      if Peek().Some? {
        object_ := ParseId();
      }
      if object_.None? || Peek().Some? { return None; }
      var n := ids.value;
      return Some(TypeTransition(n[0], n[1], n[2], n[3], object_.value));
    }

    method ParseGenfsCon() returns (r: Option<Statement>)
      modifies this
      ensures (match r case Some(s) => Ok(s) case None => Err(GenfsConError)) == ParseBody(GF, old(rest))
    {
      var ids := ParseIds(3);
      if ids.None? || Peek().Some? { return None; }
      return Some(GenfsCon(ids.value[0], ids.value[1], ids.value[2]));
    }

    method ParseStatement() returns (r: ParseResult)
      modifies this
      ensures r == Parse(old(rest))
    {
      hide AvParts, XpermParts, Sterm, Term, IdList, Av, AvXperm;
      var t := Next();
      if t.None? {
        return Err(ShowHelp);
      }
      var action := t.value;
      var s: Option<Statement>;
      match action {
        case AL | DN | AA | DA =>
          s := ParseAv(action);
          r := if s.Some? then Ok(s.value) else Err(AvtabAv(action));
        case AX | AY | DX =>
          s := ParseAvXperm(action);
          r := if s.Some? then Ok(s.value) else Err(AvtabXperms(action));
        case PM | EF =>
          s := ParseTypeState(action);
          r := if s.Some? then Ok(s.value) else Err(TypeState(action));
        case TA =>
          s := ParseTypeAttr();
          r := if s.Some? then Ok(s.value) else Err(TypeAttr);
        case TY =>
          s := ParseNewType();
          r := if s.Some? then Ok(s.value) else Err(NewType);
        case AT =>
          s := ParseNewAttr();
          r := if s.Some? then Ok(s.value) else Err(NewAttr);
        case TC | TM =>
          s := ParseAvType(action);
          r := if s.Some? then Ok(s.value) else Err(AvtabType(action));
        case TT =>
          s := ParseTypeTrans();
          r := if s.Some? then Ok(s.value) else Err(TypeTrans);
        case GF =>
          s := ParseGenfsCon();
          r := if s.Some? then Ok(s.value) else Err(GenfsConError);
        case _ =>
          r := Err(UnknownAction(action));
      }
    }
  }
}
