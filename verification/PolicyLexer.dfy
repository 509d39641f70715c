/** The tokens of the policy statement language. */
module PolicyLexer {
  import opened Common

  type u16 = x: int | 0 <= x < 0x1_0000

  datatype Token =
    | AL | DN | AA | DA | AX | AY | DX | PM | EF | TA | TY | AT | TT | TC | TM | GF
    | LB | RB | CM | ST | TL | HP
    | HX(value: u16)
    | ID(name: string)

  /** Words with a token of their own. */
  function Keyword(s: string): Option<Token> {
    match s
    case "allow" => Some(AL)
    case "deny" => Some(DN)
    case "auditallow" => Some(AA)
    case "dontaudit" => Some(DA)
    case "allowxperm" => Some(AX)
    case "auditallowxperm" => Some(AY)
    case "dontauditxperm" => Some(DX)
    case "permissive" => Some(PM)
    case "enforce" => Some(EF)
    case "typeattribute" => Some(TA)
    case "type" => Some(TY)
    case "attribute" => Some(AT)
    case "type_transition" => Some(TT)
    case "type_change" => Some(TC)
    case "type_member" => Some(TM)
    case "genfscon" => Some(GF)
    case "*" => Some(ST)
    case "-" => Some(HP)
    case _ => None
  }

  // ---------------------------------------------------------------------------------------
  // Hexadecimal numbers
  // ---------------------------------------------------------------------------------------

  function DigitValue(c: char): (d: Option<nat>)
    ensures d.Some? ==> d.value < 16
  {
    if '0' <= c <= '9' then Some(c as int - '0' as int)
    else if 'a' <= c <= 'f' then Some(c as int - 'a' as int + 10)
    else if 'A' <= c <= 'F' then Some(c as int - 'A' as int + 10)
    else None
  }

  function HexValue(s: string): Option<nat> {
    if s == "" then Some(0)
    else
      var high, low := HexValue(s[..|s| - 1]), DigitValue(s[|s| - 1]);
      if high.Some? && low.Some? then Some(high.value * 16 + low.value) else None
  }

  /** `u16::from_str_radix(s, 16)`: a plus sign is allowed, an empty number is not. */
  function FromRadix16(s: string): Option<u16> {
    var digits := if |s| > 1 && s[0] == '+' then s[1..] else s;
    var v := HexValue(digits);
    if digits != "" && v.Some? && v.value < 0x1_0000 then Some(v.value) else None
  }

  function XpermHex(s: string): Option<u16> {
    if "0x" <= s then FromRadix16(s[2..]) else None
  }

  // ---------------------------------------------------------------------------------------
  // The code
  // ---------------------------------------------------------------------------------------

  function IndexOf(s: string, c: char): (i: nat)
    requires c in s
    ensures i < |s| && s[i] == c && c !in s[..i]
  {
    if s[0] == c then 0 else
      var i := IndexOf(s[1..], c);
      assert s[..1 + i] == [s[0]] + s[1..][..i];
      1 + i
  }

  /** `extract_token`: the tokens of a word are pushed onto the vector. */
  method ExtractToken(s: string, tokens: seq<Token>) returns (out: seq<Token>)
    ensures out == tokens + Lex(s)
    decreases |s|
  {
    hide Keyword, XpermHex, Lex, HasDelimiter, Classify, IndexOf;
    if Keyword(s).Some? {
      LexKeyword(s);
      out := tokens + [Keyword(s).value];
    } else if s == "" {
      LexEmpty();
      out := tokens;
    } else if '{' in s {
      out := ExtractAround(s, '{', tokens);
    } else if '}' in s {
      out := ExtractAround(s, '}', tokens);
    } else if ',' in s {
      out := ExtractAround(s, ',', tokens);
    } else if s[0] == '~' {
      LexTilde(s);
      out := ExtractToken(s[1..], tokens + [TL]);
    } else if '-' in s && XpermHex(s[..IndexOf(s, '-')]).Some? {
      LexRange(s);
      var i := IndexOf(s, '-');
      out := ExtractToken(s[..i], tokens);
      out := ExtractToken(s[i + 1..], out + [HP]);
    } else {
      LexWord(s);
      out := tokens + [if XpermHex(s).Some? then HX(XpermHex(s).value) else ID(s)];
    }
  }

  /** The three arms that split a word at a brace or a comma. */
  method ExtractAround(s: string, c: char, tokens: seq<Token>) returns (out: seq<Token>)
    requires c in s && IsDelimiter(c)
    ensures out == tokens + Lex(s)
    decreases |s|, 0
  {
    hide Lex;
    var i := IndexOf(s, c);
    LexAt(s[..i], c, s[i + 1..]);
    assert s == s[..i] + [c] + s[i + 1..];
    out := ExtractToken(s[..i], tokens);
    out := ExtractToken(s[i + 1..], out + [DelimiterToken(c)]);
  }

  // ---------------------------------------------------------------------------------------
  // A simple lexer
  // ---------------------------------------------------------------------------------------

  predicate IsDelimiter(c: char) { c == '{' || c == '}' || c == ',' }

  predicate HasDelimiter(s: string) { exists i :: 0 <= i < |s| && IsDelimiter(s[i]) }

  /** The Unicode property White_Space, at which `split_whitespace` splits. */
  predicate IsBlank(c: char) {
    var n := c as int;
    9 <= n <= 13 || n == 0x20 || n == 0x85 || n == 0xA0 || n == 0x1680 || 0x2000 <= n <= 0x200A
    || n == 0x2028 || n == 0x2029 || n == 0x202F || n == 0x205F || n == 0x3000
  }

  predicate IsCut(c: char, blanks: bool) { IsDelimiter(c) || (blanks && IsBlank(c)) }

  function CutTokens(c: char): seq<Token> { if IsDelimiter(c) then [DelimiterToken(c)] else [] }

  function DelimiterToken(c: char): Token { if c == '{' then LB else if c == '}' then RB else CM }

  /** The tokens of a piece without braces and commas. */
  function Classify(p: string): seq<Token>
    decreases |p|
  {
    if Keyword(p).Some? then [Keyword(p).value]
    else if p == "" then []
    else if p[0] == '~' then [TL] + Classify(p[1..])
    else if '-' in p && XpermHex(p[..IndexOf(p, '-')]).Some? then
      var i := IndexOf(p, '-');
      Classify(p[..i]) + [HP] + Classify(p[i + 1..])
    else if XpermHex(p).Some? then [HX(XpermHex(p).value)]
    else [ID(p)]
  }

  /** From left to right: cut a word at every brace and comma, classify each piece. */
  function Lex(word: string): seq<Token> { LexFrom(false, "", word) }

  /** The same for a statement, where blanks cut too and leave no token. */
  function Scan(statement: string): seq<Token> { LexFrom(true, "", statement) }

  /** `piece` is what was read since the last cut. */
  function LexFrom(blanks: bool, piece: string, s: string): seq<Token>
    decreases |s|
  {
    if s == "" then Classify(piece)
    else if IsCut(s[0], blanks) then Classify(piece) + CutTokens(s[0]) + LexFrom(blanks, "", s[1..])
    else LexFrom(blanks, piece + [s[0]], s[1..])
  }

  lemma {:induction false} LexFromAt(blanks: bool, piece: string, a: string, c: char, b: string)
    requires IsCut(c, blanks)
    ensures LexFrom(blanks, piece, a + [c] + b) == LexFrom(blanks, piece, a) + CutTokens(c) + LexFrom(blanks, "", b)
    decreases |a|
  {
    hide Classify, IsCut, CutTokens;
    if a == "" {
      assert ("" + [c] + b)[1..] == b;
    } else {
      assert (a + [c] + b)[1..] == a[1..] + [c] + b;
      if IsCut(a[0], blanks) {
        LexFromAt(blanks, "", a[1..], c, b);
      } else {
        LexFromAt(blanks, piece + [a[0]], a[1..], c, b);
      }
    }
  }

  /** Every brace and comma is a cut, whatever stands on its two sides. */
  lemma LexAt(a: string, c: char, b: string)
    requires IsDelimiter(c)
    ensures Lex(a + [c] + b) == Lex(a) + [DelimiterToken(c)] + Lex(b)
  {
    hide LexFrom;
    LexFromAt(false, "", a, c, b);
  }

  lemma ScanAt(a: string, c: char, b: string)
    requires IsCut(c, true)
    ensures Scan(a + [c] + b) == Scan(a) + CutTokens(c) + Scan(b)
  {
    hide LexFrom, IsCut, CutTokens;
    LexFromAt(true, "", a, c, b);
  }

  /** Blanks beside a brace or a comma change nothing. */
  lemma BlanksDoNotMatter(a: string, blank: char, c: char, b: string)
    requires IsBlank(blank) && IsDelimiter(c)
    ensures Scan(a + [blank] + ([c] + b)) == Scan(a + [c] + b)
    ensures Scan(a + [c] + ([blank] + b)) == Scan(a + [c] + b)
  {
    hide Scan;
    ScanAt(a, blank, [c] + b);
    ScanAt(a, c, b);
    ScanAt(a, c, [blank] + b);
    ScanAt("", c, b);
    ScanAt("", blank, b);
    assert "" + [c] + b == [c] + b && "" + [blank] + b == [blank] + b;
    ScanEmpty();
    assert !IsDelimiter(blank);
  }

  lemma ScanEmpty()
    ensures Scan("") == []
  {
  }

  lemma {:induction false} LexFromPiece(piece: string, s: string)
    requires !HasDelimiter(s)
    ensures LexFrom(false, piece, s) == Classify(piece + s)
    decreases |s|
  {
    hide Classify, CutTokens;
    if s == "" {
      assert piece + s == piece;
    } else {
      assert !IsDelimiter(s[0]);
      assert forall i :: 0 <= i < |s[1..]| ==> s[1..][i] == s[i + 1];
      LexFromPiece(piece + [s[0]], s[1..]);
      assert piece + [s[0]] + s[1..] == piece + s;
    }
  }

  lemma LexPiece(s: string)
    requires !HasDelimiter(s)
    ensures Lex(s) == Classify(s)
  {
    LexFromPiece("", s);
    assert "" + s == s;
  }

  lemma LexSlice(s: string, i: nat, j: nat)
    requires !HasDelimiter(s) && i <= j <= |s|
    ensures Lex(s[i..j]) == Classify(s[i..j])
  {
    hide Classify;
    assert forall k :: 0 <= k < j - i ==> s[i..j][k] == s[i + k] && !IsDelimiter(s[i + k]);
    LexPiece(s[i..j]);
  }

  lemma NoDelimiter(s: string)
    requires '{' !in s && '}' !in s && ',' !in s
    ensures !HasDelimiter(s)
  {
    assert forall i :: 0 <= i < |s| ==> s[i] in s;
  }

  lemma LexEmpty()
    ensures Lex("") == []
  {
  }

  lemma LexKeyword(s: string)
    requires Keyword(s).Some?
    ensures Lex(s) == [Keyword(s).value]
  {
    hide Lex, LexFrom, Keyword, HasDelimiter, XpermHex, IndexOf;
    KeywordsAreWhole(s);
    LexPiece(s);
  }

  lemma KeywordsAreWhole(s: string)
    requires Keyword(s).Some?
    ensures !HasDelimiter(s)
  {
    assert forall i :: 0 <= i < |s| ==> !IsDelimiter(s[i]);
  }

  lemma LexTilde(s: string)
    requires s != "" && s[0] == '~' && '{' !in s && '}' !in s && ',' !in s
    ensures Lex(s) == [TL] + Lex(s[1..])
  {
    hide Lex, LexFrom, XpermHex, HasDelimiter;
    NoDelimiter(s);
    LexPiece(s);
    LexSlice(s, 1, |s|);
    assert s[1..] == s[1..|s|];
  }

  lemma LexRange(s: string)
    requires Keyword(s).None? && s != "" && s[0] != '~' && '{' !in s && '}' !in s && ',' !in s
    requires '-' in s && XpermHex(s[..IndexOf(s, '-')]).Some?
    ensures var i := IndexOf(s, '-'); Lex(s) == Lex(s[..i]) + [HP] + Lex(s[i + 1..])
  {
    hide Lex, LexFrom, XpermHex, HasDelimiter, Keyword, IndexOf;
    var i := IndexOf(s, '-');
    NoDelimiter(s);
    LexPiece(s);
    LexSlice(s, 0, i);
    LexSlice(s, i + 1, |s|);
    assert s[..i] == s[0..i] && s[i + 1..] == s[i + 1..|s|];
  }

  lemma LexWord(s: string)
    requires Keyword(s).None? && s != "" && s[0] != '~' && '{' !in s && '}' !in s && ',' !in s
    requires '-' in s ==> XpermHex(s[..IndexOf(s, '-')]).None?
    ensures Lex(s) == [if XpermHex(s).Some? then HX(XpermHex(s).value) else ID(s)]
  {
    hide Lex, LexFrom, XpermHex, HasDelimiter, Keyword, IndexOf;
    NoDelimiter(s);
    LexPiece(s);
  }

  // ---------------------------------------------------------------------------------------
  // Statements
  // ---------------------------------------------------------------------------------------

  /** `split_whitespace`: the maximal runs without blanks; `word` is the run read so far. */
  function Words(word: string, s: string): seq<string>
    decreases |s|
  {
    if s == "" then NonEmpty(word)
    else if IsBlank(s[0]) then NonEmpty(word) + Words("", s[1..])
    else Words(word + [s[0]], s[1..])
  }

  function NonEmpty(word: string): seq<string> { if word == "" then [] else [word] }

  function LexAll(words: seq<string>): seq<Token> {
    if words == [] then [] else Lex(words[0]) + LexAll(words[1..])
  }

  lemma {:induction false} LexAllAppend(a: seq<string>, b: seq<string>)
    ensures LexAll(a + b) == LexAll(a) + LexAll(b)
  {
    hide Lex;
    if a == [] {
      assert a + b == b;
    } else {
      assert (a + b)[1..] == a[1..] + b;
      LexAllAppend(a[1..], b);
      assert Lex(a[0]) + (LexAll(a[1..]) + LexAll(b)) == Lex(a[0]) + LexAll(a[1..]) + LexAll(b);
    }
  }

  lemma LexAllNonEmpty(word: string)
    ensures LexAll(NonEmpty(word)) == Lex(word)
  {
    if word == "" {
      LexEmpty();
    } else {
      hide Lex;
      assert LexAll([word][1..]) == [];
    }
  }

  predicate BlankFree(word: string) { forall i :: 0 <= i < |word| ==> !IsBlank(word[i]) }

  lemma {:induction false} LexFromBlankFree(piece: string, word: string)
    requires BlankFree(word)
    ensures LexFrom(true, piece, word) == LexFrom(false, piece, word)
    decreases |word|
  {
    hide Classify, CutTokens, IsDelimiter;
    if word != "" {
      assert !IsBlank(word[0]);
      assert forall i :: 0 <= i < |word[1..]| ==> word[1..][i] == word[i + 1];
      LexFromBlankFree("", word[1..]);
      LexFromBlankFree(piece + [word[0]], word[1..]);
    }
  }

  lemma ScanWord(word: string)
    requires BlankFree(word)
    ensures Scan(word) == Lex(word)
  {
    LexFromBlankFree("", word);
  }

  /** Splitting at blanks and then cutting each word is the one scan of the statement. */
  lemma {:induction false} WordsScan(word: string, s: string)
    requires BlankFree(word)
    ensures LexAll(Words(word, s)) == Scan(word + s)
    decreases |s|
  {
    hide Lex, Scan, IsBlank, LexAll, NonEmpty, IsCut, CutTokens;
    if s == "" {
      LexAllNonEmpty(word);
      ScanWord(word);
      assert word + s == word;
    } else if IsBlank(s[0]) {
      LexAllAppend(NonEmpty(word), Words("", s[1..]));
      LexAllNonEmpty(word);
      ScanWord(word);
      WordsScan("", s[1..]);
      assert "" + s[1..] == s[1..];
      BlankCut(s[0]);
      ScanAt(word, s[0], s[1..]);
      assert word + [s[0]] + s[1..] == word + s;
    } else {
      WordsScan(word + [s[0]], s[1..]);
      assert word + [s[0]] + s[1..] == word + s;
    }
  }

  lemma BlankCut(c: char)
    requires IsBlank(c)
    ensures IsCut(c, true) && CutTokens(c) == []
  {
  }

  /** `tokenize_statement`. */
  method TokenizeStatement(statement: string) returns (tokens: seq<Token>)
    ensures tokens == Scan(statement)
  {
    hide Lex, Scan;
    var words := Words("", statement);
    tokens := [];
    for i := 0 to |words|
      invariant tokens == LexAll(words[..i])
    {
      LexAllAppend(words[..i], [words[i]]);
      assert words[..i + 1] == words[..i] + [words[i]];
      assert LexAll([words[i]]) == Lex(words[i]) by { assert [words[i]][1..] == []; }
      tokens := ExtractToken(words[i], tokens);
    }
    assert words[..|words|] == words;
    WordsScan("", statement);
    assert "" + statement == statement;
  }
}
