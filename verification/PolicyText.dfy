/**
 * Printed statements. Print is the reference the lexer and the parser are measured against: a
 * statement is the meaning of some text exactly when it is well formed, and then printing it
 * gives such a text.
 */
module PolicyText {
  import opened Common
  import opened PolicyLexer
  import opened PolicyParser

  // ---------------------------------------------------------------------------------------
  // Names and numbers
  // ---------------------------------------------------------------------------------------

  /** A word that is read back as one identifier. */
  predicate IsName(s: string) {
    && s != "" && s[0] != '~'
    && BlankFree(s) && !HasDelimiter(s)
    && Keyword(s).None? && XpermHex(s).None?
    && ('-' in s ==> XpermHex(s[..IndexOf(s, '-')]).None?)
  }

  predicate AllNames(names: NameList) { forall i :: 0 <= i < |names| ==> IsName(names[i]) }

  function Ids(names: NameList): seq<Token> {
    if names == [] then [] else [ID(names[0])] + Ids(names[1..])
  }

  lemma LexName(s: string)
    requires IsName(s)
    ensures Lex(s) == [ID(s)] && BlankFree(s)
  {
    hide Lex, Keyword, XpermHex, IndexOf, BlankFree;
    assert forall i :: 0 <= i < |s| ==> !IsDelimiter(s[i]);
    LexWord(s);
  }

  lemma {:induction false} LexNames(names: NameList)
    requires AllNames(names)
    ensures LexAll(names) == Ids(names)
  {
    hide Lex, IsName;
    if names != [] {
      LexName(names[0]);
      assert forall i :: 0 <= i < |names[1..]| ==> names[1..][i] == names[i + 1];
      LexNames(names[1..]);
    }
  }

  function DigitChar(d: nat): (c: char)
    requires d < 16
    ensures DigitValue(c) == Some(d)
  {
    if d < 10 then ('0' as int + d) as char else ('a' as int + (d - 10)) as char
  }

  function HexText(n: nat, digits: nat): (s: string)
    ensures |s| == digits
  {
    if digits == 0 then "" else HexText(n / 16, digits - 1) + [DigitChar(n % 16)]
  }

  function Places(digits: nat): nat { if digits == 0 then 1 else 16 * Places(digits - 1) }

  lemma {:induction false} HexValueOfText(n: nat, digits: nat)
    requires n < Places(digits)
    ensures HexValue(HexText(n, digits)) == Some(n)
  {
    if digits != 0 {
      HexValueOfText(n / 16, digits - 1);
      var s := HexText(n, digits);
      assert s[..|s| - 1] == HexText(n / 16, digits - 1);
    }
  }

  predicate AllDigits(s: string) { forall i :: 0 <= i < |s| ==> DigitValue(s[i]).Some? }

  lemma {:induction false} HexTextDigits(n: nat, digits: nat)
    ensures AllDigits(HexText(n, digits))
  {
    if digits != 0 {
      HexTextDigits(n / 16, digits - 1);
    }
  }

  /** `0x` and four digits. */
  function Hex(n: u16): (s: string)
    ensures |s| == 6
  {
    "0x" + HexText(n, 4)
  }

  lemma HexReadsBack(n: u16)
    ensures XpermHex(Hex(n)) == Some(n)
  {
    var t := HexText(n, 4);
    assert Places(4) == 0x1_0000;
    HexValueOfText(n, 4);
    HexTextDigits(n, 4);
    assert DigitValue(t[0]).Some?;
    assert Hex(n)[2..] == t;
  }

  predicate HexChar(c: char) { DigitValue(c).Some? || c == 'x' || c == '-' }

  lemma HexChars(n: u16)
    ensures forall i :: 0 <= i < 6 ==> HexChar(Hex(n)[i]) && Hex(n)[i] != '-'
    ensures Hex(n)[0] == '0'
  {
    hide HexText;
    HexTextDigits(n, 4);
    var t := HexText(n, 4);
    assert forall i :: 0 <= i < 4 ==> DigitValue(t[i]).Some?;
  }

  /** A word of digits, `x` and a hyphen that starts with a zero is not special otherwise. */
  lemma HexWord(s: string)
    requires s != "" && s[0] == '0'
    requires forall i :: 0 <= i < |s| ==> HexChar(s[i])
    ensures BlankFree(s) && '{' !in s && '}' !in s && ',' !in s && Keyword(s).None?
  {
  }

  lemma LexHex(n: u16)
    ensures Lex(Hex(n)) == [HX(n)] && BlankFree(Hex(n))
  {
    hide Lex, Keyword, XpermHex, IndexOf, BlankFree, Hex, HexChar;
    HexChars(n);
    HexWord(Hex(n));
    HexReadsBack(n);
    LexWord(Hex(n));
  }

  function RangeWord(x: Xperm): string { Hex(x.low) + "-" + Hex(x.high) }

  function RangeTokens(x: Xperm): seq<Token> { [HX(x.low), HP, HX(x.high)] }

  lemma LexRangeWord(x: Xperm)
    ensures Lex(RangeWord(x)) == RangeTokens(x) && BlankFree(RangeWord(x))
  {
    hide Lex, Keyword, XpermHex, BlankFree, Hex, HexChar;
    var s := RangeWord(x);
    RangeWordChars(x);
    HexWord(s);
    HexChars(x.low);
    assert forall i :: 0 <= i < 6 ==> s[i] == Hex(x.low)[i];
    IndexOfAt(s, '-', 6);
    assert s[..6] == Hex(x.low) && s[6 + 1..] == Hex(x.high);
    HexReadsBack(x.low);
    LexRange(s);
    LexHex(x.low);
    LexHex(x.high);
  }

  lemma {:induction false} IndexOfAt(s: string, c: char, k: nat)
    requires k < |s| && s[k] == c && forall i :: 0 <= i < k ==> s[i] != c
    ensures IndexOf(s, c) == k
  {
    if k != 0 {
      assert s[0] != c;
      assert forall i :: 0 <= i < k - 1 ==> s[1..][i] == s[i + 1];
      IndexOfAt(s[1..], c, k - 1);
    }
  }

  lemma RangeWordChars(x: Xperm)
    ensures var s := RangeWord(x); |s| == 13 && s[0] == '0' && forall i :: 0 <= i < |s| ==> HexChar(s[i])
  {
    hide Hex, DigitValue;
    HexChars(x.low);
    HexChars(x.high);
    var s := RangeWord(x);
    forall i | 0 <= i < |s| ensures HexChar(s[i]) {
      if i < 6 {
        assert s[i] == Hex(x.low)[i];
      } else if i > 6 {
        assert s[i] == Hex(x.high)[i - 7];
      }
    }
  }

  // ---------------------------------------------------------------------------------------
  // Printing
  // ---------------------------------------------------------------------------------------

  function Braced(words: seq<string>): seq<string> { ["{"] + (words + ["}"]) }

  function StermWords(names: NameList): seq<string> { if names == [] then ["*"] else Braced(names) }

  function RangeWords(xperms: seq<Xperm>): seq<string> {
    if xperms == [] then [] else [RangeWord(xperms[0])] + RangeWords(xperms[1..])
  }

  function XpermsWords(xperms: seq<Xperm>): seq<string>
    requires xperms != []
  {
    if xperms[0].reset then ["~"] + Braced(RangeWords(xperms)) else Braced(RangeWords(xperms))
  }

  function SidesWords(src: NameList, target: NameList, cls: NameList, last: seq<string>): seq<string> {
    StermWords(src) + (StermWords(target) + (StermWords(cls) + last))
  }

  predicate IsAv(s: Statement) { s.Allow? || s.Deny? || s.AuditAllow? || s.DontAudit? }

  predicate IsAvXperm(s: Statement) { s.AllowXperm? || s.AuditAllowXperm? || s.DontAuditXperm? }

  function Verb(s: Statement): string {
    match s
    case Allow(_, _, _, _) => "allow"
    case Deny(_, _, _, _) => "deny"
    case AuditAllow(_, _, _, _) => "auditallow"
    case DontAudit(_, _, _, _) => "dontaudit"
    case AllowXperm(_, _, _, _) => "allowxperm"
    case AuditAllowXperm(_, _, _, _) => "auditallowxperm"
    case DontAuditXperm(_, _, _, _) => "dontauditxperm"
    case Permissive(_) => "permissive"
    case Enforce(_) => "enforce"
    case TypeAttribute(_, _) => "typeattribute"
    case Type(_, _) => "type"
    case Attribute(_) => "attribute"
    case TypeTransition(_, _, _, _, _) => "type_transition"
    case TypeChange(_, _, _, _) => "type_change"
    case TypeMember(_, _, _, _) => "type_member"
    case GenfsCon(_, _, _) => "genfscon"
  }

  function Plain(s: Statement): NameList {
    match s
    case Attribute(name) => [name]
    case TypeTransition(a, b, c, d, o) => if o == "" then [a, b, c, d] else [a, b, c, d, o]
    case TypeChange(a, b, c, d) => [a, b, c, d]
    case TypeMember(a, b, c, d) => [a, b, c, d]
    case GenfsCon(a, b, c) => [a, b, c]
    case _ => []
  }

  /** What the policy language can say: names that read back, one reset flag for all ranges. */
  predicate WellFormed(s: Statement) {
    if IsAv(s) then AllNames(s.src) && AllNames(s.target) && AllNames(s.cls) && AllNames(s.perm)
    else if IsAvXperm(s) then
      AllNames(s.src) && AllNames(s.target) && AllNames(s.cls) && OneReset(s.xperm)
    else if s.Permissive? || s.Enforce? then AllNames(s.types)
    else if s.TypeAttribute? then AllNames(s.types) && AllNames(s.attrs)
    else if s.Type? then IsName(s.name) && AllNames(s.attrs)
    else AllNames(Plain(s))
  }

  predicate OneReset(xperms: seq<Xperm>) {
    xperms != [] && forall i :: 0 <= i < |xperms| ==> xperms[i].reset == xperms[0].reset
  }

  function BodyWords(s: Statement): seq<string>
    requires WellFormed(s)
  {
    if IsAv(s) then SidesWords(s.src, s.target, s.cls, StermWords(s.perm))
    else if IsAvXperm(s) then SidesWords(s.src, s.target, s.cls, ["ioctl"] + XpermsWords(s.xperm))
    else if s.Permissive? || s.Enforce? then StermWords(s.types)
    else if s.TypeAttribute? then Braced(s.types) + Braced(s.attrs)
    else if s.Type? then [s.name] + (if s.attrs == [] then [] else Braced(s.attrs))
    else Plain(s)
  }

  function Join(words: seq<string>): string {
    if words == [] then "" else words[0] + [' '] + Join(words[1..])
  }

  function Print(s: Statement): string
    requires WellFormed(s)
  {
    Join([Verb(s)] + BodyWords(s))
  }

  // ---------------------------------------------------------------------------------------
  // Lexing what was printed
  // ---------------------------------------------------------------------------------------

  function StermTokens(names: NameList): seq<Token> {
    if names == [] then [ST] else [LB] + (Ids(names) + [RB])
  }

  function XpermsTokens(xperms: seq<Xperm>): seq<Token>
    requires xperms != []
  {
    (if xperms[0].reset then [TL] else []) + ([LB] + (RangeList(xperms) + [RB]))
  }

  function RangeList(xperms: seq<Xperm>): seq<Token> {
    if xperms == [] then [] else RangeTokens(xperms[0]) + RangeList(xperms[1..])
  }

  function SidesTokens(src: NameList, target: NameList, cls: NameList, last: seq<Token>): seq<Token> {
    StermTokens(src) + (StermTokens(target) + (StermTokens(cls) + last))
  }

  function BodyTokens(s: Statement): seq<Token>
    requires WellFormed(s)
  {
    if IsAv(s) then SidesTokens(s.src, s.target, s.cls, StermTokens(s.perm))
    else if IsAvXperm(s) then SidesTokens(s.src, s.target, s.cls, [ID("ioctl")] + XpermsTokens(s.xperm))
    else if s.Permissive? || s.Enforce? then StermTokens(s.types)
    else if s.TypeAttribute? then [LB] + (Ids(s.types) + [RB]) + ([LB] + (Ids(s.attrs) + [RB]))
    else if s.Type? then [ID(s.name)] + (if s.attrs == [] then [] else [LB] + (Ids(s.attrs) + [RB]))
    else Ids(Plain(s))
  }

  /** The words hold no blanks and lex to the tokens. */
  ghost predicate Lexes(words: seq<string>, tokens: seq<Token>) {
    (forall i :: 0 <= i < |words| ==> BlankFree(words[i])) && LexAll(words) == tokens
  }

  lemma LexesAppend(a: seq<string>, ta: seq<Token>, b: seq<string>, tb: seq<Token>)
    requires Lexes(a, ta) && Lexes(b, tb)
    ensures Lexes(a + b, ta + tb)
  {
    hide LexAll, BlankFree;
    LexAllAppend(a, b);
  }

  lemma LexesWord(w: string, tokens: seq<Token>)
    requires BlankFree(w) && Lex(w) == tokens
    ensures Lexes([w], tokens)
  {
    hide Lex;
    assert LexAll([w][1..]) == [];
  }

  lemma LexesNames(names: NameList)
    requires AllNames(names)
    ensures Lexes(names, Ids(names))
  {
    hide LexAll, Ids, IsName, BlankFree;
    LexNames(names);
    forall i | 0 <= i < |names| ensures BlankFree(names[i]) {
      LexName(names[i]);
    }
  }

  lemma LexesMarks()
    ensures Lexes(["{"], [LB]) && Lexes(["}"], [RB]) && Lexes(["*"], [ST]) && Lexes(["~"], [TL])
  {
    LexEmpty();
    LexAt("", '{', "");
    LexAt("", '}', "");
    assert "" + ['{'] + "" == "{" && "" + ['}'] + "" == "}";
    LexesWord("{", [LB]);
    LexesWord("}", [RB]);
    LexKeyword("*");
    LexesWord("*", [ST]);
    LexTilde("~");
    assert "~"[1..] == "";
    LexesWord("~", [TL]);
  }

  lemma LexesBraced(words: seq<string>, tokens: seq<Token>)
    requires Lexes(words, tokens)
    ensures Lexes(Braced(words), [LB] + (tokens + [RB]))
  {
    hide Lexes;
    LexesMarks();
    LexesAppend(words, tokens, ["}"], [RB]);
    LexesAppend(["{"], [LB], words + ["}"], tokens + [RB]);
  }

  lemma LexesSterm(names: NameList)
    requires AllNames(names)
    ensures Lexes(StermWords(names), StermTokens(names))
  {
    hide Lexes, Braced, Ids, AllNames;
    LexesMarks();
    LexesNames(names);
    LexesBraced(names, Ids(names));
  }

  lemma {:induction false} LexesRanges(xperms: seq<Xperm>)
    ensures Lexes(RangeWords(xperms), RangeList(xperms))
  {
    if xperms != [] {
      hide Lexes, RangeWord, RangeTokens;
      LexRangeWord(xperms[0]);
      LexesWord(RangeWord(xperms[0]), RangeTokens(xperms[0]));
      LexesRanges(xperms[1..]);
      LexesAppend([RangeWord(xperms[0])], RangeTokens(xperms[0]), RangeWords(xperms[1..]), RangeList(xperms[1..]));
    }
  }

  lemma LexesXperms(xperms: seq<Xperm>)
    requires xperms != []
    ensures Lexes(XpermsWords(xperms), XpermsTokens(xperms))
  {
    hide Lexes, RangeWords, RangeList, Braced;
    LexesMarks();
    LexesRanges(xperms);
    LexesBraced(RangeWords(xperms), RangeList(xperms));
    LexesAppend(["~"], [TL], Braced(RangeWords(xperms)), [LB] + (RangeList(xperms) + [RB]));
    assert [] + ([LB] + (RangeList(xperms) + [RB])) == [LB] + (RangeList(xperms) + [RB]);
  }

  lemma LexesSides(src: NameList, target: NameList, cls: NameList, words: seq<string>, tokens: seq<Token>)
    requires AllNames(src) && AllNames(target) && AllNames(cls) && Lexes(words, tokens)
    ensures Lexes(SidesWords(src, target, cls, words), SidesTokens(src, target, cls, tokens))
  {
    hide Lexes, StermWords, StermTokens, AllNames;
    LexesSterm(src);
    LexesSterm(target);
    LexesSterm(cls);
    LexesAppend(StermWords(cls), StermTokens(cls), words, tokens);
    LexesAppend(StermWords(target), StermTokens(target), StermWords(cls) + words, StermTokens(cls) + tokens);
    LexesAppend(StermWords(src), StermTokens(src),
      StermWords(target) + (StermWords(cls) + words), StermTokens(target) + (StermTokens(cls) + tokens));
  }

  lemma LexesBody(s: Statement)
    requires WellFormed(s)
    ensures Lexes(BodyWords(s), BodyTokens(s))
  {
    hide Lexes, StermWords, StermTokens, Braced, SidesWords, SidesTokens, XpermsWords, XpermsTokens;
    hide Ids, AllNames, IsName;
    if IsAv(s) {
      LexesSterm(s.perm);
      LexesSides(s.src, s.target, s.cls, StermWords(s.perm), StermTokens(s.perm));
    } else if IsAvXperm(s) {
      LexesXpermPart(s.xperm);
      LexesSides(s.src, s.target, s.cls, ["ioctl"] + XpermsWords(s.xperm), [ID("ioctl")] + XpermsTokens(s.xperm));
    } else if s.Permissive? || s.Enforce? {
      LexesSterm(s.types);
    } else if s.TypeAttribute? {
      LexesTerm(s.types);
      LexesTerm(s.attrs);
      LexesAppend(Braced(s.types), [LB] + (Ids(s.types) + [RB]), Braced(s.attrs), [LB] + (Ids(s.attrs) + [RB]));
    } else if s.Type? {
      LexesNewType(s.name, s.attrs);
    } else {
      LexesNames(Plain(s));
    }
  }

  lemma LexesTerm(names: NameList)
    requires AllNames(names)
    ensures Lexes(Braced(names), [LB] + (Ids(names) + [RB]))
  {
    hide Lexes, Braced, Ids, AllNames;
    LexesNames(names);
    LexesBraced(names, Ids(names));
  }

  lemma LexesXpermPart(xperms: seq<Xperm>)
    requires OneReset(xperms)
    ensures Lexes(["ioctl"] + XpermsWords(xperms), [ID("ioctl")] + XpermsTokens(xperms))
  {
    hide Lexes, XpermsWords, XpermsTokens, IsName;
    assert IsName("ioctl") by { IoctlIsName(); }
    LexName("ioctl");
    LexesWord("ioctl", [ID("ioctl")]);
    LexesXperms(xperms);
    LexesAppend(["ioctl"], [ID("ioctl")], XpermsWords(xperms), XpermsTokens(xperms));
  }

  lemma IoctlIsName()
    ensures IsName("ioctl")
  {
    assert !('-' in "ioctl");
  }

  lemma LexesNewType(name: string, attrs: NameList)
    requires IsName(name) && AllNames(attrs)
    ensures Lexes([name] + (if attrs == [] then [] else Braced(attrs)),
                  [ID(name)] + (if attrs == [] then [] else [LB] + (Ids(attrs) + [RB])))
  {
    hide Lexes, Braced, Ids, IsName, AllNames;
    LexName(name);
    LexesWord(name, [ID(name)]);
    if attrs == [] {
      assert [name] + [] == [name] && [ID(name)] + [] == [ID(name)];
    } else {
      LexesTerm(attrs);
      LexesAppend([name], [ID(name)], Braced(attrs), [LB] + (Ids(attrs) + [RB]));
    }
  }

  lemma {:induction false} ScanJoin(words: seq<string>)
    requires forall i :: 0 <= i < |words| ==> BlankFree(words[i])
    ensures Scan(Join(words)) == LexAll(words)
  {
    hide Lex, Scan, BlankFree, IsCut, CutTokens;
    if words == [] {
      ScanEmpty();
    } else {
      assert forall i :: 0 <= i < |words[1..]| ==> words[1..][i] == words[i + 1];
      ScanJoin(words[1..]);
      BlankCut(' ');
      ScanAt(words[0], ' ', Join(words[1..]));
      ScanWord(words[0]);
    }
  }

  function VerbToken(s: Statement): (t: Token)
    ensures Keyword(Verb(s)) == Some(t)
  {
    Keyword(Verb(s)).value
  }

  lemma VerbLexes(s: Statement)
    ensures BlankFree(Verb(s)) && Lex(Verb(s)) == [VerbToken(s)]
  {
    hide Lex, Keyword, Verb, VerbToken;
    assert Keyword(Verb(s)) == Some(VerbToken(s));
    LexKeyword(Verb(s));
    VerbLetters(s);
  }

  lemma VerbLetters(s: Statement)
    ensures forall i :: 0 <= i < |Verb(s)| ==> '_' <= Verb(s)[i] <= 'z'
  {
  }

  lemma PrintedTokens(s: Statement)
    requires WellFormed(s)
    ensures Scan(Print(s)) == [VerbToken(s)] + BodyTokens(s)
  {
    hide BodyWords, BodyTokens, Scan, Lex, WellFormed, BlankFree, Verb, Keyword, VerbToken;
    LexesBody(s);
    VerbLexes(s);
    LexesWord(Verb(s), [VerbToken(s)]);
    LexesAppend([Verb(s)], [VerbToken(s)], BodyWords(s), BodyTokens(s));
    ScanJoin([Verb(s)] + BodyWords(s));
  }

  // ---------------------------------------------------------------------------------------
  // Parsing what was printed
  // ---------------------------------------------------------------------------------------

  lemma {:induction false} NamesRead(names: NameList, before: NameList, rest: seq<Token>)
    ensures NamesUpToBrace(Ids(names) + [RB] + rest, before) == Got(before + names, rest)
    ensures StarNames(Ids(names) + [RB] + rest, Some(before)) == Got(before + names, rest)
    decreases names
  {
    var ts := Ids(names) + [RB] + rest;
    if names == [] {
      assert ts[1..] == rest && before + names == before;
    } else {
      assert ts[1..] == Ids(names[1..]) + [RB] + rest;
      NamesRead(names[1..], before + [names[0]], rest);
      assert before + [names[0]] + names[1..] == before + names;
    }
  }

  lemma TermRead(names: NameList, rest: seq<Token>)
    ensures Term([LB] + (Ids(names) + [RB]) + rest) == Got(names, rest)
    ensures Sterm([LB] + (Ids(names) + [RB]) + rest) == Got(names, rest)
  {
    hide Ids;
    NamesRead(names, [], rest);
    assert ([LB] + (Ids(names) + [RB]) + rest)[1..] == Ids(names) + [RB] + rest;
    assert [] + names == names;
  }

  lemma StermRead(names: NameList, rest: seq<Token>)
    ensures Sterm(StermTokens(names) + rest) == Got(names, rest)
  {
    if names == [] {
      assert ([ST] + rest)[1..] == rest;
    } else {
      hide Sterm;
      TermRead(names, rest);
    }
  }

  lemma SidesRead(src: NameList, target: NameList, cls: NameList, rest: seq<Token>)
    ensures ThreeSterms(SidesTokens(src, target, cls, rest)) == Got(Sides(src, target, cls), rest)
  {
    hide Sterm, StermTokens;
    StermRead(src, StermTokens(target) + (StermTokens(cls) + rest));
    StermRead(target, StermTokens(cls) + rest);
    StermRead(cls, rest);
  }

  lemma {:induction false} XpermListRead(xs: seq<Xperm>, reset: bool, before: seq<Xperm>)
    requires xs != [] && forall i :: 0 <= i < |xs| ==> xs[i].reset == reset
    ensures XpermList(RangeList(xs) + [RB], reset, before) == Got(before + xs, [])
    decreases xs
  {
    hide OneXperm, RangeTokens;
    var ts := RangeList(xs) + [RB];
    var left := RangeList(xs[1..]) + [RB];
    OneRead(xs[0], left);
    assert ts == RangeTokens(xs[0]) + left;
    if |xs| == 1 {
      assert left == [RB] && left[1..] == [];
      assert xs == [xs[0]];
    } else {
      RangeListStart(xs[1..]);
      assert left[0] == HX(xs[1].low);
      XpermListRead(xs[1..], reset, before + [xs[0]]);
      assert before + [xs[0]] + xs[1..] == before + xs;
    }
  }

  lemma OneRead(x: Xperm, left: seq<Token>)
    ensures OneXperm(RangeTokens(x) + left, x.reset) == Got(x, left)
  {
    var ts := RangeTokens(x) + left;
    assert ts[0] == HX(x.low) && ts[1] == HP && ts[2] == HX(x.high) && ts[3..] == left;
  }

  lemma RangeListStart(xs: seq<Xperm>)
    requires xs != []
    ensures RangeList(xs) != [] && RangeList(xs)[0] == HX(xs[0].low)
  {
  }

  lemma XpermsRead(xs: seq<Xperm>)
    requires OneReset(xs)
    ensures Xperms(XpermsTokens(xs)) == Got(xs, [])
  {
    hide RangeList, XpermList;
    XpermListRead(xs, xs[0].reset, []);
    var ts := XpermsTokens(xs);
    assert [] + xs == xs;
    if xs[0].reset {
      assert ts[2..] == RangeList(xs) + [RB];
    } else {
      assert ts == [LB] + (RangeList(xs) + [RB]);
      assert ts[1..] == RangeList(xs) + [RB];
    }
  }

  lemma {:induction false} IdListRead(names: NameList)
    ensures IdList(Ids(names)) == Some(names)
  {
    if names != [] {
      assert Ids(names)[1..] == Ids(names[1..]);
      IdListRead(names[1..]);
      assert [names[0]] + names[1..] == names;
    }
  }

  lemma AvRead(s: Statement)
    requires WellFormed(s) && IsAv(s)
    ensures ParseBody(VerbToken(s), BodyTokens(s)) == Ok(s)
  {
    hide AllNames, Sterm, StermTokens, SidesTokens, ThreeSterms;
    SidesRead(s.src, s.target, s.cls, StermTokens(s.perm));
    StermRead(s.perm, []);
    assert StermTokens(s.perm) + [] == StermTokens(s.perm);
  }

  lemma AvXpermRead(s: Statement)
    requires WellFormed(s) && IsAvXperm(s)
    ensures ParseBody(VerbToken(s), BodyTokens(s)) == Ok(s)
  {
    hide AllNames, Sterm, StermTokens, SidesTokens, ThreeSterms, Xperms, XpermsTokens;
    var last := [ID("ioctl")] + XpermsTokens(s.xperm);
    SidesRead(s.src, s.target, s.cls, last);
    assert last[1..] == XpermsTokens(s.xperm);
    XpermsRead(s.xperm);
  }

  lemma TypeRead(s: Statement)
    requires WellFormed(s) && (s.Permissive? || s.Enforce? || s.TypeAttribute? || s.Type?)
    ensures ParseBody(VerbToken(s), BodyTokens(s)) == Ok(s)
  {
    hide AllNames, IsName, Sterm, StermTokens, Term, Ids;
    if s.Permissive? || s.Enforce? {
      StermRead(s.types, []);
      assert StermTokens(s.types) + [] == StermTokens(s.types);
    } else {
      var attrs := [LB] + (Ids(s.attrs) + [RB]);
      TermRead(s.attrs, []);
      assert attrs + [] == attrs;
      if s.TypeAttribute? {
        TermRead(s.types, attrs);
      } else {
        var left := if s.attrs == [] then [] else attrs;
        assert ([ID(s.name)] + left)[1..] == left;
      }
    }
  }

  lemma ParsedTokens(s: Statement)
    requires WellFormed(s)
    ensures ParseBody(VerbToken(s), BodyTokens(s)) == Ok(s)
  {
    hide WellFormed, ParseBody, VerbToken, BodyTokens;
    if IsAv(s) {
      AvRead(s);
    } else if IsAvXperm(s) {
      AvXpermRead(s);
    } else if s.Permissive? || s.Enforce? || s.TypeAttribute? || s.Type? {
      TypeRead(s);
    } else {
      PlainRead(s);
    }
  }

  lemma PlainRead(s: Statement)
    requires WellFormed(s)
    requires s.Attribute? || s.TypeTransition? || s.TypeChange? || s.TypeMember? || s.GenfsCon?
    ensures ParseBody(VerbToken(s), BodyTokens(s)) == Ok(s)
  {
    hide AllNames, IsName, Ids, IdList, Sterm, Term, AvParts, XpermParts, Id;
    IdListRead(Plain(s));
  }

  /** Printing a statement, then tokenizing and parsing the text, gives the statement back. */
  lemma RoundTrip(s: Statement)
    requires WellFormed(s)
    ensures Parse(Scan(Print(s))) == Ok(s)
  {
    hide WellFormed, VerbToken, BodyTokens, ParseBody, Scan, Print;
    PrintedTokens(s);
    ParsedTokens(s);
    assert ([VerbToken(s)] + BodyTokens(s))[1..] == BodyTokens(s);
  }

  // ---------------------------------------------------------------------------------------
  // Whatever is accepted is well formed
  // ---------------------------------------------------------------------------------------

  predicate Named(ts: seq<Token>) { forall i :: 0 <= i < |ts| && ts[i].ID? ==> IsName(ts[i].name) }

  lemma NamedAppend(a: seq<Token>, b: seq<Token>)
    requires Named(a) && Named(b)
    ensures Named(a + b)
  {
  }

  lemma NamedRest(ts: seq<Token>, n: nat)
    requires Named(ts) && n <= |ts|
    ensures Named(ts[n..])
  {
    hide IsName;
    assert forall i :: 0 <= i < |ts[n..]| ==> ts[n..][i] == ts[i + n];
  }

  predicate Uncut(piece: string) { BlankFree(piece) && !HasDelimiter(piece) }

  lemma UncutSlice(piece: string, i: nat, j: nat)
    requires Uncut(piece) && i <= j <= |piece|
    ensures Uncut(piece[i..j])
  {
    assert forall k :: 0 <= k < j - i ==> piece[i..j][k] == piece[i + k];
    assert forall k :: 0 <= k < |piece| ==> !IsDelimiter(piece[k]);
  }

  lemma {:induction false} ClassifyNamed(p: string)
    requires Uncut(p)
    ensures Named(Classify(p))
    decreases |p|
  {
    hide Keyword, XpermHex, IndexOf, Uncut;
    if Keyword(p).Some? {
      KeywordIsNoName(p);
    } else if p == "" {
    } else if p[0] == '~' {
      UncutSlice(p, 1, |p|);
      assert p[1..|p|] == p[1..];
      ClassifyNamed(p[1..]);
      NamedAppend([TL], Classify(p[1..]));
    } else if '-' in p && XpermHex(p[..IndexOf(p, '-')]).Some? {
      var i := IndexOf(p, '-');
      UncutSlice(p, 0, i);
      UncutSlice(p, i + 1, |p|);
      assert p[0..i] == p[..i] && p[i + 1..|p|] == p[i + 1..];
      ClassifyNamed(p[..i]);
      ClassifyNamed(p[i + 1..]);
      NamedAppend(Classify(p[..i]), [HP]);
      NamedAppend(Classify(p[..i]) + [HP], Classify(p[i + 1..]));
    } else {
      UncutIsName(p);
    }
  }

  lemma KeywordIsNoName(p: string)
    requires Keyword(p).Some?
    ensures !Keyword(p).value.ID?
  {
  }

  lemma UncutIsName(p: string)
    requires Uncut(p) && Keyword(p).None? && p != "" && p[0] != '~'
    requires '-' in p ==> XpermHex(p[..IndexOf(p, '-')]).None?
    ensures XpermHex(p).Some? || IsName(p)
  {
    hide Keyword, XpermHex, IndexOf, HasDelimiter, BlankFree;
  }

  lemma {:induction false} LexFromNamed(piece: string, s: string)
    requires Uncut(piece)
    ensures Named(LexFrom(true, piece, s))
    decreases |s|
  {
    hide Classify, Named;
    ClassifyNamed(piece);
    if s == "" {
    } else if IsCut(s[0], true) {
      LexFromNamed("", s[1..]);
      assert Named(CutTokens(s[0])) by { CutTokensNamed(s[0]); }
      NamedAppend(Classify(piece), CutTokens(s[0]));
      NamedAppend(Classify(piece) + CutTokens(s[0]), LexFrom(true, "", s[1..]));
    } else {
      LexFromNamed(piece + [s[0]], s[1..]);
    }
  }

  lemma CutTokensNamed(c: char)
    ensures Named(CutTokens(c))
  {
  }

  /** A part read from named tokens leaves named tokens. */
  predicate GotNames(p: Parsed<NameList>) { p.Got? ==> AllNames(p.value) && Named(p.rest) }

  lemma {:induction false} NamesGot(ts: seq<Token>, before: NameList)
    requires Named(ts) && AllNames(before)
    ensures GotNames(NamesUpToBrace(ts, before))
    decreases ts
  {
    hide IsName;
    if ts != [] {
      NamedRest(ts, 1);
      if ts[0].ID? {
        NamesGot(ts[1..], before + [ts[0].name]);
      }
    }
  }

  lemma {:induction false} StarNamesGot(ts: seq<Token>, before: Option<NameList>)
    requires Named(ts) && (before.Some? ==> AllNames(before.value))
    ensures GotNames(StarNames(ts, before))
    decreases ts
  {
    hide IsName;
    if ts != [] {
      NamedRest(ts, 1);
      if ts[0].ID? {
        StarNamesGot(ts[1..], if before.Some? then Some(before.value + [ts[0].name]) else None);
      } else if ts[0].ST? {
        StarNamesGot(ts[1..], None);
      }
    }
  }

  lemma TermGot(ts: seq<Token>)
    requires Named(ts)
    ensures GotNames(Term(ts)) && GotNames(Sterm(ts))
  {
    hide IsName, NamesUpToBrace, StarNames;
    if ts != [] {
      NamedRest(ts, 1);
      NamesGot(ts[1..], []);
      StarNamesGot(ts[1..], Some([]));
    }
  }

  lemma {:induction false} XpermListGot(ts: seq<Token>, reset: bool, before: seq<Xperm>)
    requires forall i :: 0 <= i < |before| ==> before[i].reset == reset
    ensures var p := XpermList(ts, reset, before); p.Got? ==> OneReset(p.value)
    decreases |ts|
  {
    var p := OneXperm(ts, reset);
    if p.Got? {
      var more := before + [p.value];
      assert forall i :: 0 <= i < |more| ==> more[i].reset == reset;
      if !(p.rest != [] && p.rest[0] == RB) {
        XpermListGot(p.rest, reset, more);
      }
    }
  }

  lemma XpermsGot(ts: seq<Token>)
    ensures Xperms(ts).Got? ==> OneReset(Xperms(ts).value)
  {
    hide XpermList;
    if |ts| > 0 {
      XpermListGot(ts[1..], false, []);
      if |ts| > 1 {
        XpermListGot(ts[2..], true, []);
      }
    }
  }

  lemma {:induction false} IdListGot(ts: seq<Token>)
    requires Named(ts)
    ensures IdList(ts).Some? ==> AllNames(IdList(ts).value)
  {
    hide IsName;
    if ts != [] {
      NamedRest(ts, 1);
      IdListGot(ts[1..]);
    }
  }

  lemma SidesGot(ts: seq<Token>)
    requires Named(ts)
    ensures var p := ThreeSterms(ts);
            p.Got? ==> AllNames(p.value.src) && AllNames(p.value.target) && AllNames(p.value.cls) && Named(p.rest)
  {
    hide AllNames, Named, Sterm;
    TermGot(ts);
    var p := Sterm(ts);
    if p.Got? {
      TermGot(p.rest);
      var q := Sterm(p.rest);
      if q.Got? {
        TermGot(q.rest);
      }
    }
  }

  lemma BodyGot(action: Token, body: seq<Token>)
    requires Named(body)
    ensures ParseBody(action, body).Ok? ==> WellFormed(ParseBody(action, body).statement)
  {
    hide AllNames, Named, Sterm, Term, ThreeSterms, Xperms, OneReset, IsName, IdList;
    match action {
      case AL | DN | AA | DA | AX | AY | DX =>
        SidesGot(body);
        var p := ThreeSterms(body);
        if p.Got? {
          TermGot(p.rest);
          if p.rest != [] {
            XpermsGot(p.rest[1..]);
          }
        }
      case PM | EF =>
        TermGot(body);
      case TA =>
        TermGot(body);
        if Term(body).Got? {
          TermGot(Term(body).rest);
        }
      case TY =>
        NewTypeGot(body);
      case AT | TC | TM | TT | GF =>
        PlainGot(action, body);
      case _ =>
    }
  }

  lemma NewTypeGot(body: seq<Token>)
    requires Named(body)
    ensures ParseBody(TY, body).Ok? ==> WellFormed(ParseBody(TY, body).statement)
  {
    hide IsName, Term;
    if body != [] {
      NamedRest(body, 1);
      TermGot(body[1..]);
    }
  }

  lemma PlainGot(action: Token, body: seq<Token>)
    requires action in {AT, TC, TM, TT, GF} && Named(body)
    ensures ParseBody(action, body).Ok? ==> WellFormed(ParseBody(action, body).statement)
  {
    hide IsName, IdList, Named, AllNames;
    IdListGot(body);
    if IdList(body).Some? {
      var ids := IdList(body).value;
      assert |ids| == 1 ==> ids == [ids[0]];
      assert |ids| == 3 ==> ids == [ids[0], ids[1], ids[2]];
      assert |ids| == 4 ==> ids == [ids[0], ids[1], ids[2], ids[3]];
      assert |ids| == 5 ==> ids == [ids[0], ids[1], ids[2], ids[3], ids[4]];
      if action == TT && |ids| == 5 {
        LastIsName(ids);
      }
    }
  }

  lemma LastIsName(ids: NameList)
    requires AllNames(ids) && |ids| == 5
    ensures ids[4] != ""
  {
    assert IsName(ids[4]);
  }

  /** Every statement that a text denotes is well formed, and its own printed form denotes it too. */
  lemma Accepted(text: string)
    requires Parse(Scan(text)).Ok?
    ensures WellFormed(Parse(Scan(text)).statement)
    ensures Parse(Scan(Print(Parse(Scan(text)).statement))) == Parse(Scan(text))
  {
    hide WellFormed, ParseBody, LexFrom, Named, Print;
    LexFromNamed("", text);
    var ts := Scan(text);
    NamedRest(ts, 1);
    BodyGot(ts[0], ts[1..]);
    RoundTrip(Parse(ts).statement);
  }

  // ---------------------------------------------------------------------------------------
  // Commas
  // ---------------------------------------------------------------------------------------

  /** What was read from the front of the tokens holds no comma. */
  predicate LeavesComma<T(==)>(ts: seq<Token>, p: Parsed<T>) { p.Got? && CM in ts ==> CM in p.rest }

  lemma CommaBehind(ts: seq<Token>, n: nat)
    requires n <= |ts| && forall i :: 0 <= i < n ==> ts[i] != CM
    ensures CM in ts <==> CM in ts[n..]
  {
    assert ts == ts[..n] + ts[n..];
    assert forall i :: 0 <= i < n ==> ts[..n][i] == ts[i];
  }

  lemma {:induction false} NamesLeaveComma(ts: seq<Token>, before: NameList)
    ensures LeavesComma(ts, NamesUpToBrace(ts, before))
  {
    if ts != [] && (ts[0].ID? || ts[0].RB?) {
      CommaBehind(ts, 1);
      if ts[0].ID? {
        NamesLeaveComma(ts[1..], before + [ts[0].name]);
      }
    }
  }

  lemma {:induction false} StarNamesLeaveComma(ts: seq<Token>, before: Option<NameList>)
    ensures LeavesComma(ts, StarNames(ts, before))
  {
    if ts != [] && (ts[0].ID? || ts[0].ST? || ts[0].RB?) {
      CommaBehind(ts, 1);
      if ts[0].ID? {
        StarNamesLeaveComma(ts[1..], if before.Some? then Some(before.value + [ts[0].name]) else None);
      } else if ts[0].ST? {
        StarNamesLeaveComma(ts[1..], None);
      }
    }
  }

  lemma TermLeavesComma(ts: seq<Token>)
    ensures LeavesComma(ts, Term(ts)) && LeavesComma(ts, Sterm(ts))
  {
    hide NamesUpToBrace, StarNames;
    if ts != [] && ts[0] != CM {
      CommaBehind(ts, 1);
      NamesLeaveComma(ts[1..], []);
      StarNamesLeaveComma(ts[1..], Some([]));
    }
  }

  lemma OneXpermLeavesComma(ts: seq<Token>, reset: bool)
    ensures LeavesComma(ts, OneXperm(ts, reset))
  {
    if ts != [] && ts[0].HX? {
      CommaBehind(ts, 1);
      if |ts| > 2 && ts[1] == HP && ts[2].HX? {
        CommaBehind(ts, 3);
      }
    }
  }

  lemma {:induction false} XpermListLeavesComma(ts: seq<Token>, reset: bool, before: seq<Xperm>)
    ensures LeavesComma(ts, XpermList(ts, reset, before))
    decreases |ts|
  {
    OneXpermLeavesComma(ts, reset);
    var p := OneXperm(ts, reset);
    if p.Got? {
      if p.rest != [] && p.rest[0] == RB {
        CommaBehind(p.rest, 1);
      } else {
        XpermListLeavesComma(p.rest, reset, before + [p.value]);
      }
    }
  }

  lemma XpermsLeaveComma(ts: seq<Token>)
    ensures LeavesComma(ts, Xperms(ts))
  {
    hide XpermList, OneXperm;
    if ts != [] && ts[0] != CM {
      CommaBehind(ts, 1);
      XpermListLeavesComma(ts[1..], false, []);
      OneXpermLeavesComma(ts, false);
      if |ts| > 1 && ts[1] == LB {
        CommaBehind(ts, 2);
        XpermListLeavesComma(ts[2..], true, []);
      }
    }
  }

  lemma {:induction false} IdListHasNoComma(ts: seq<Token>)
    ensures IdList(ts).Some? ==> CM !in ts
  {
    if ts != [] && ts[0].ID? {
      CommaBehind(ts, 1);
      IdListHasNoComma(ts[1..]);
    }
  }

  lemma SidesLeaveComma(ts: seq<Token>)
    ensures LeavesComma(ts, ThreeSterms(ts))
  {
    hide Sterm;
    TermLeavesComma(ts);
    var p := Sterm(ts);
    if p.Got? {
      TermLeavesComma(p.rest);
      var q := Sterm(p.rest);
      if q.Got? {
        TermLeavesComma(q.rest);
      }
    }
  }

  lemma BodyHasNoComma(action: Token, body: seq<Token>)
    ensures ParseBody(action, body).Ok? ==> CM !in body
  {
    hide Sterm, Term, ThreeSterms, Xperms, IdList;
    match action {
      case AL | DN | AA | DA | AX | AY | DX =>
        SidesLeaveComma(body);
        var p := ThreeSterms(body);
        if p.Got? {
          TermLeavesComma(p.rest);
          if p.rest != [] && p.rest[0] != CM {
            CommaBehind(p.rest, 1);
            XpermsLeaveComma(p.rest[1..]);
          }
        }
      case PM | EF =>
        TermLeavesComma(body);
      case TA =>
        TermLeavesComma(body);
        if Term(body).Got? {
          TermLeavesComma(Term(body).rest);
        }
      case TY =>
        if body != [] && body[0].ID? {
          CommaBehind(body, 1);
          TermLeavesComma(body[1..]);
        }
      case AT | TC | TM | TT | GF =>
        IdListHasNoComma(body);
      case _ =>
    }
  }

  /** The lexer knows commas, the grammar has no place for one: no text with a comma is accepted. */
  lemma CommaIsRefused(text: string)
    requires ',' in text
    ensures Parse(Scan(text)).Err?
  {
    hide Scan, ParseBody;
    var i :| 0 <= i < |text| && text[i] == ',';
    assert text == text[..i] + [','] + text[i + 1..];
    ScanAt(text[..i], ',', text[i + 1..]);
    var ts := Scan(text);
    assert CM in ts;
    if ts[0] != CM {
      CommaBehind(ts, 1);
    }
    BodyHasNoComma(ts[0], ts[1..]);
    CommaIsNoVerb(ts[1..]);
  }

  lemma CommaIsNoVerb(body: seq<Token>)
    ensures ParseBody(CM, body).Err?
  {
  }

  // ---------------------------------------------------------------------------------------
  // A line of a rule file
  // ---------------------------------------------------------------------------------------

  function Trim(s: string): string
    decreases |s|
  {
    if s == "" then ""
    else if IsBlank(s[0]) then Trim(s[1..])
    else if IsBlank(s[|s| - 1]) then Trim(s[..|s| - 1])
    else s
  }

  lemma {:induction false} TrimKeepsScan(s: string)
    ensures Scan(Trim(s)) == Scan(s)
    decreases |s|
  {
    hide Scan, IsBlank, IsCut, CutTokens;
    ScanEmpty();
    if s != "" {
      if IsBlank(s[0]) {
        BlankCut(s[0]);
        ScanAt("", s[0], s[1..]);
        assert "" + [s[0]] + s[1..] == s;
        TrimKeepsScan(s[1..]);
      } else if IsBlank(s[|s| - 1]) {
        var c := s[|s| - 1];
        BlankCut(c);
        ScanAt(s[..|s| - 1], c, "");
        assert s[..|s| - 1] + [c] + "" == s;
        TrimKeepsScan(s[..|s| - 1]);
      }
    }
  }

  lemma {:induction false} ClassifyNonEmpty(p: string)
    requires p != ""
    ensures Classify(p) != []
  {
    hide Keyword, XpermHex, IndexOf;
  }

  lemma {:induction false} LexFromNonEmpty(piece: string, s: string)
    requires piece != "" || (s != "" && !IsBlank(s[0]))
    ensures LexFrom(true, piece, s) != []
    decreases |s|
  {
    hide Classify, IsBlank;
    if piece != "" {
      ClassifyNonEmpty(piece);
    }
    if s != "" && !IsCut(s[0], true) {
      LexFromNonEmpty(piece + [s[0]], s[1..]);
    }
  }

  lemma {:induction false} TrimmedStart(s: string)
    ensures Trim(s) != "" ==> !IsBlank(Trim(s)[0])
    decreases |s|
  {
    if s != "" {
      TrimmedStart(s[1..]);
      TrimmedStart(s[..|s| - 1]);
    }
  }

  /**
   * `parse_statement` up to the call of `exec_statement`: None for a comment or an empty line.
   * The help text for an empty statement is never the answer.
   */
  method ParseLine(line: string) returns (r: Option<ParseResult>)
    ensures r.None? <==> Trim(line) == "" || Trim(line)[0] == '#'
    ensures r.Some? ==> r.value == Parse(Scan(line)) && r.value != Err(ShowHelp)
    ensures r.Some? && r.value.Ok? ==> WellFormed(r.value.statement)
  {
    hide Scan, WellFormed, ParseBody, IsBlank;
    var statement := Trim(line);
    if statement == "" || statement[0] == '#' {
      return None;
    }
    TrimKeepsScan(line);
    TrimmedStart(line);
    ScanNonEmpty(statement);
    var tokens := TokenizeStatement(statement);
    var stream := new Tokens(tokens);
    var result := stream.ParseStatement();
    if result.Ok? {
      Accepted(line);
    }
    NoHelp(tokens);
    return Some(result);
  }

  lemma ScanNonEmpty(s: string)
    requires s != "" && !IsBlank(s[0])
    ensures Scan(s) != []
  {
    LexFromNonEmpty("", s);
  }

  lemma NoHelp(ts: seq<Token>)
    requires ts != []
    ensures Parse(ts) != Err(ShowHelp)
  {
    hide Sterm, Term, AvParts, XpermParts, IdList, Id;
  }

  /** Writing a statement to a rule file and reading the line executes the same statement. */
  method PrintThenRead(s: Statement) returns (r: Option<ParseResult>)
    requires WellFormed(s)
    ensures r == Some(Ok(s))
  {
    hide WellFormed, Scan, Parse, Print;
    var line := Print(s);
    PrintStartsWithVerb(s);
    TrimKeepsStart(line);
    r := ParseLine(line);
    RoundTrip(s);
  }

  lemma PrintStartsWithVerb(s: Statement)
    requires WellFormed(s)
    ensures Print(s) != "" && '_' <= Print(s)[0] <= 'z'
  {
    hide WellFormed, BodyWords;
    VerbLetters(s);
    var words := [Verb(s)] + BodyWords(s);
    assert words[0] == Verb(s) && Print(s)[0] == Verb(s)[0];
  }

  lemma {:induction false} TrimKeepsStart(s: string)
    requires s != "" && !IsBlank(s[0])
    ensures Trim(s) != "" && Trim(s)[0] == s[0]
    decreases |s|
  {
    if IsBlank(s[|s| - 1]) {
      TrimKeepsStart(s[..|s| - 1]);
    }
  }
}
