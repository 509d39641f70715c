/** Removing mount options from a file system table, in place. */
module PatternFilter {
  import opened Common
  import opened Format
  import opened LittleEndian

  const COMMA: byte := 0x2c
  const EQUALS: byte := 0x3d

  // ---------------------------------------------------------------------------------------
  // The matcher
  // ---------------------------------------------------------------------------------------

  /** A blank, a newline, a comma or a zero byte ends a value. */
  predicate EndsValue(b: byte) { b == 0x20 || b == 0x0a || b == COMMA || b == 0 }

  function ValueLength(s: Bytes): (n: nat)
    ensures n <= |s|
  {
    if s == [] || EndsValue(s[0]) then 0 else 1 + ValueLength(s[1..])
  }

  /** The first pattern of the list that the bytes start with. */
  function FirstMatch(patterns: seq<Bytes>, s: Bytes): (m: Option<nat>)
    ensures m.Some? ==> m.value <= |s|
    ensures m.Some? <==> exists i :: 0 <= i < |patterns| && patterns[i] <= s
  {
    if patterns == [] then None
    else if patterns[0] <= s then Some(|patterns[0]|)
    else
      assert forall i :: 0 <= i < |patterns[1..]| ==> patterns[1..][i] == patterns[i + 1];
      FirstMatch(patterns[1..], s)
  }

  /** An optional comma, one of the patterns, and a value if an equals sign follows. */
  function Match(patterns: seq<Bytes>, s: Bytes): (m: Option<nat>)
    requires s != []
    ensures m.Some? ==> m.value <= |s|
  {
    var comma := if s[0] == COMMA then 1 else 0;
    if |s| == comma then None
    else match FirstMatch(patterns, s[comma..])
      case None => None
      case Some(n) =>
        var rest := s[comma + n..];
        Some(comma + n + if rest != [] && rest[0] == EQUALS then ValueLength(rest) else 0)
  }

  predicate NonEmptyPatterns(patterns: seq<Bytes>) { forall i :: 0 <= i < |patterns| ==> patterns[i] != [] }

  lemma {:induction false} MatchProgress(patterns: seq<Bytes>, s: Bytes)
    requires NonEmptyPatterns(patterns) && s != []
    ensures Match(patterns, s).Some? ==> Match(patterns, s).value > 0
  {
    var comma := if s[0] == COMMA then 1 else 0;
    FirstMatchProgress(patterns, s[comma..]);
  }

  lemma {:induction false} FirstMatchProgress(patterns: seq<Bytes>, s: Bytes)
    requires NonEmptyPatterns(patterns)
    ensures FirstMatch(patterns, s).Some? ==> FirstMatch(patterns, s).value > 0
  {
    if patterns != [] {
      assert forall i :: 0 <= i < |patterns[1..]| ==> patterns[1..][i] == patterns[i + 1];
      FirstMatchProgress(patterns[1..], s);
    }
  }

  /** `match_patterns!`. */
  method MatchPatterns(buf: Bytes, patterns: seq<Bytes>) returns (m: Option<nat>)
    requires buf != []
    ensures m == Match(patterns, buf)
  {
    hide FirstMatch, ValueLength;
    var len := if buf[0] == COMMA then 1 else 0;
    if |buf| == len {
      return None;
    }
    var found := FindPattern(buf[len..], patterns);
    if found.None? {
      return None;
    }
    len := len + found.value;
    var b := buf[len..];
    if b != [] && b[0] == EQUALS {
      var n := SkipValue(b);
      len := len + n;
    }
    return Some(len);
  }

  /** The chain of `starts_with` arms. */
  method FindPattern(b: Bytes, patterns: seq<Bytes>) returns (m: Option<nat>)
    ensures m == FirstMatch(patterns, b)
  {
    for i := 0 to |patterns|
      invariant FirstMatch(patterns[i..], b) == FirstMatch(patterns, b)
    {
      assert patterns[i..][1..] == patterns[i + 1..];
      if patterns[i] <= b {
        return Some(|patterns[i]|);
      }
    }
    return None;
  }

  /** The loop over the bytes of a value. */
  method SkipValue(b: Bytes) returns (n: nat)
    ensures n == ValueLength(b)
  {
    n := 0;
    while n < |b| && !EndsValue(b[n])
      invariant n <= |b|
      invariant ValueLength(b) == n + ValueLength(b[n..])
    {
      assert b[n..][1..] == b[n + 1..];
      n := n + 1;
    }
  }

  // ---------------------------------------------------------------------------------------
  // The filter
  // ---------------------------------------------------------------------------------------

  /** From left to right: drop what matches, keep the byte that does not. */
  function Filtered(patterns: seq<Bytes>, s: Bytes): (kept: Bytes)
    requires NonEmptyPatterns(patterns)
    ensures |kept| <= |s|
    decreases |s|
  {
    if s == [] then []
    else
      MatchProgress(patterns, s);
      match Match(patterns, s)
      case Some(n) => Filtered(patterns, s[n..])
      case None => [s[0]] + Filtered(patterns, s[1..])
  }

  /** `remove_pattern`: the kept bytes move to the front, the rest is filled with zeros. */
  method RemovePattern(buf: array<byte>, patterns: seq<Bytes>) returns (sz: nat)
    requires NonEmptyPatterns(patterns)
    modifies buf
    ensures var kept := Filtered(patterns, old(buf[..]));
            sz == |kept| && buf[..] == kept + Zeros(buf.Length - |kept|)
  {
    hide Match, NonEmptyPatterns, Filtered;
    var write, read := 0, 0;
    sz := buf.Length;
    ghost var s := buf[..];
    assert s[0..] == s;
    while read < buf.Length
      invariant 0 <= write <= read <= buf.Length
      invariant buf[read..] == s[read..]
      invariant sz == buf.Length - (read - write)
      invariant buf[..write] + Filtered(patterns, s[read..]) == Filtered(patterns, s)
      decreases buf.Length - read
    {
      MatchProgress(patterns, s[read..]);
      FilteredStep(patterns, s, read);
      var m := MatchPatterns(buf[read..], patterns);
      if m.Some? {
        assert buf[read..][m.value..] == buf[read + m.value..];
        assert s[read..][m.value..] == s[read + m.value..];
        sz := sz - m.value;
        read := read + m.value;
      } else {
        Assoc(buf[..write], [s[read]], Filtered(patterns, s[read + 1..]));
        assert buf[read] == s[read..][0];
        ghost var front := buf[..write];
        assert s[read..][1..] == s[read + 1..];
        assert buf[read..][1..] == buf[read + 1..];
        buf[write] := buf[read];
        write := write + 1;
        read := read + 1;
        assert buf[..write] == front + [s[read - 1]];
      }
    }
    FilteredEmpty(patterns);
    assert s[buf.Length..] == [];
    FillZeros(buf, write);
    assert buf[..] == buf[..write] + buf[write..];
  }

  /** `buf[from..].fill(0)`. */
  method FillZeros(buf: array<byte>, from: nat)
    requires from <= buf.Length
    modifies buf
    ensures buf[..from] == old(buf[..from]) && buf[from..] == Zeros(buf.Length - from)
  {
    for i := from to buf.Length
      invariant buf[..from] == old(buf[..from])
      invariant forall j :: from <= j < i ==> buf[j] == 0
    {
      buf[i] := 0;
    }
  }

  lemma FilteredEmpty(patterns: seq<Bytes>)
    requires NonEmptyPatterns(patterns)
    ensures Filtered(patterns, []) == []
  {
  }

  lemma FilteredStep(patterns: seq<Bytes>, s: Bytes, read: nat)
    requires NonEmptyPatterns(patterns) && read < |s|
    ensures Filtered(patterns, s[read..]) ==
            match Match(patterns, s[read..])
            case Some(n) => Filtered(patterns, s[read + n..])
            case None => [s[read]] + Filtered(patterns, s[read + 1..])
  {
    hide Match, NonEmptyPatterns;
    var m := Match(patterns, s[read..]);
    assert s[read..][1..] == s[read + 1..];
    if m.Some? {
      assert s[read..][m.value..] == s[read + m.value..];
    }
  }

  /** The bytes stay as they are exactly when nothing matches anywhere. */
  lemma {:induction false} UnchangedIff(patterns: seq<Bytes>, s: Bytes)
    requires NonEmptyPatterns(patterns)
    ensures Filtered(patterns, s) == s <==> forall i :: 0 <= i < |s| ==> Match(patterns, s[i..]).None?
    decreases |s|
  {
    hide Match, NonEmptyPatterns;
    if s != [] {
      assert s[0..] == s;
      FilteredStep(patterns, s, 0);
      if Match(patterns, s).None? {
        UnchangedIff(patterns, s[1..]);
        assert s == [s[0]] + s[1..];
        assert forall i :: 0 <= i < |s| - 1 ==> s[1..][i..] == s[i + 1..];
        if Filtered(patterns, s) == s {
          assert Filtered(patterns, s)[1..] == s[1..];
          forall i | 0 < i < |s| ensures Match(patterns, s[i..]).None? {
            assert s[1..][i - 1..] == s[i..];
          }
        }
        if forall i :: 0 <= i < |s| ==> Match(patterns, s[i..]).None? {
          forall i | 0 <= i < |s[1..]| ensures Match(patterns, s[1..][i..]).None? {
            assert s[1..][i..] == s[i + 1..];
          }
        }
      } else {
        MatchProgress(patterns, s);
      }
    }
  }

  // ---------------------------------------------------------------------------------------
  // When one pass is enough
  // ---------------------------------------------------------------------------------------

  /** No pattern holds a byte that ends a value; commas in particular. */
  predicate PlainPatterns(patterns: seq<Bytes>) {
    forall i :: 0 <= i < |patterns| ==> PlainPattern(patterns[i])
  }

  predicate PlainPattern(p: Bytes) { forall k :: 0 <= k < |p| ==> !EndsValue(p[k]) }

  predicate Starts(patterns: seq<Bytes>, b: Bytes) { exists i :: 0 <= i < |patterns| && patterns[i] <= b }

  /** Nothing matches anywhere. */
  ghost predicate Settled(patterns: seq<Bytes>, b: Bytes) {
    forall i :: 0 <= i < |b| ==> Match(patterns, b[i..]).None?
  }

  /** The end of what was kept so far and the beginning of what will be kept form a pattern. */
  predicate Joins(patterns: seq<Bytes>, before: Bytes, after: Bytes) {
    exists i, k :: 0 <= i < |patterns| && 0 < k < |patterns[i]| && Joint(patterns[i], k, before, after)
  }

  predicate Joint(p: Bytes, k: nat, before: Bytes, after: Bytes)
    requires k <= |p|
  {
    k <= |before| && before[|before| - k..] == p[..k] && p[k..] <= after
  }

  /** At some match of the pass, the bytes kept on its two sides form a pattern. */
  predicate Exposes(patterns: seq<Bytes>, before: Bytes, s: Bytes)
    requires NonEmptyPatterns(patterns)
    decreases |s|
  {
    if s == [] then false
    else
      MatchProgress(patterns, s);
      match Match(patterns, s)
      case Some(n) => Joins(patterns, before, Filtered(patterns, s[n..])) || Exposes(patterns, before, s[n..])
      case None => Exposes(patterns, before + [s[0]], s[1..])
  }

  /** A match is a pattern at its place, or behind a comma there. */
  lemma MatchMeansStarts(patterns: seq<Bytes>, b: Bytes)
    requires PlainPatterns(patterns) && NonEmptyPatterns(patterns) && b != []
    ensures Starts(patterns, b) ==> Match(patterns, b).Some?
    ensures Match(patterns, b).Some? ==> Starts(patterns, b) || (b[0] == COMMA && |b| > 1 && Starts(patterns, b[1..]))
  {
    hide FirstMatch, ValueLength;
    assert b[0..] == b;
    if Starts(patterns, b) {
      var i :| 0 <= i < |patterns| && patterns[i] <= b;
      assert patterns[i][0] == b[0] && !EndsValue(patterns[i][0]);
    }
  }

  lemma SettledMeansNoStart(patterns: seq<Bytes>, b: Bytes)
    requires PlainPatterns(patterns) && NonEmptyPatterns(patterns)
    ensures Settled(patterns, b) <==> forall i :: 0 <= i < |b| ==> !Starts(patterns, b[i..])
  {
    hide Match, Starts, PlainPatterns, NonEmptyPatterns;
    forall i | 0 <= i < |b|
      ensures Starts(patterns, b[i..]) ==> Match(patterns, b[i..]).Some?
      ensures Match(patterns, b[i..]).Some? ==> exists j :: 0 <= j < |b| && Starts(patterns, b[j..])
    {
      MatchMeansStarts(patterns, b[i..]);
      if |b[i..]| > 1 {
        assert b[i..][1..] == b[i + 1..];
      }
    }
  }

  /** A pattern that began behind the last kept byte either crosses a match or stands in the input. */
  lemma {:induction false} CrossesOrStands(patterns: seq<Bytes>, before: Bytes, s: Bytes, i: nat, k: nat)
    requires NonEmptyPatterns(patterns) && i < |patterns| && 0 < k < |patterns[i]|
    requires Joint(patterns[i], k, before, Filtered(patterns, s))
    ensures Exposes(patterns, before, s) || patterns[i][k..] <= s
    decreases |s|
  {
    hide Match, NonEmptyPatterns;
    var p := patterns[i];
    if s != [] {
      assert s[0..] == s;
      FilteredStep(patterns, s, 0);
      if Match(patterns, s).None? {
        assert p[k] == s[0];
        if k + 1 < |p| {
          assert p[k + 1..] == p[k..][1..] && Filtered(patterns, s)[1..] == Filtered(patterns, s[1..]);
          assert (before + [s[0]])[|before| + 1 - (k + 1)..] == before[|before| - k..] + [s[0]] == p[..k + 1];
          CrossesOrStands(patterns, before + [s[0]], s[1..], i, k + 1);
        }
        assert p[k..] == [p[k]] + p[k + 1..] && s == [s[0]] + s[1..];
      }
    }
  }

  /** A pattern at the start of what is kept crosses a match of the pass. */
  lemma {:induction false} StartCrosses(patterns: seq<Bytes>, before: Bytes, s: Bytes, i: nat)
    requires NonEmptyPatterns(patterns) && PlainPatterns(patterns) && i < |patterns|
    requires patterns[i] <= Filtered(patterns, s)
    ensures Exposes(patterns, before, s)
    decreases |s|
  {
    hide Match, PlainPatterns;
    var p := patterns[i];
    assert s[0..] == s;
    FilteredStep(patterns, s, 0);
    if Match(patterns, s).Some? {
      MatchProgress(patterns, s);
      StartCrosses(patterns, before, s[Match(patterns, s).value..], i);
    } else {
      assert p[0] == s[0];
      MatchMeansStarts(patterns, s);
      assert !(p <= s);
      assert p == [p[0]] + p[1..] && s == [s[0]] + s[1..];
      assert Filtered(patterns, s)[1..] == Filtered(patterns, s[1..]);
      assert |p| > 1 && p[1..] <= Filtered(patterns, s[1..]);
      assert (before + [s[0]])[|before|..] == [s[0]] == p[..1];
      CrossesOrStands(patterns, before + [s[0]], s[1..], i, 1);
    }
  }

  lemma {:induction false} LeftCrosses(patterns: seq<Bytes>, before: Bytes, s: Bytes, at: nat)
    requires NonEmptyPatterns(patterns) && PlainPatterns(patterns)
    requires at < |Filtered(patterns, s)| && Starts(patterns, Filtered(patterns, s)[at..])
    ensures Exposes(patterns, before, s)
    decreases |s|
  {
    hide Match, PlainPatterns, NonEmptyPatterns;
    var kept := Filtered(patterns, s);
    if at == 0 {
      assert kept[0..] == kept;
      var i :| 0 <= i < |patterns| && patterns[i] <= kept;
      StartCrosses(patterns, before, s, i);
    } else {
      assert s[0..] == s;
      FilteredStep(patterns, s, 0);
      if Match(patterns, s).Some? {
        MatchProgress(patterns, s);
        LeftCrosses(patterns, before, s[Match(patterns, s).value..], at);
      } else {
        assert kept[at..] == Filtered(patterns, s[1..])[at - 1..];
        LeftCrosses(patterns, before + [s[0]], s[1..], at - 1);
      }
    }
  }

  lemma {:induction false} ExposedIsLeft(patterns: seq<Bytes>, before: Bytes, s: Bytes)
    requires NonEmptyPatterns(patterns) && Exposes(patterns, before, s)
    ensures var all := before + Filtered(patterns, s); exists at :: 0 <= at < |all| && Starts(patterns, all[at..])
    decreases |s|
  {
    hide Match, NonEmptyPatterns;
    assert s[0..] == s;
    FilteredStep(patterns, s, 0);
    if Match(patterns, s).None? {
      ExposedIsLeft(patterns, before + [s[0]], s[1..]);
      Assoc(before, [s[0]], Filtered(patterns, s[1..]));
    } else {
      var rest := s[Match(patterns, s).value..];
      MatchProgress(patterns, s);
      if Joins(patterns, before, Filtered(patterns, rest)) {
        JoinedIsThere(patterns, before, Filtered(patterns, rest));
      } else {
        ExposedIsLeft(patterns, before, rest);
      }
    }
  }

  lemma JoinedIsThere(patterns: seq<Bytes>, before: Bytes, after: Bytes)
    requires Joins(patterns, before, after)
    ensures exists at :: 0 <= at < |before + after| && Starts(patterns, (before + after)[at..])
  {
    var i, k :| 0 <= i < |patterns| && 0 < k < |patterns[i]| && Joint(patterns[i], k, before, after);
    var at := |before| - k;
    assert (before + after)[at..] == before[at..] + after;
    assert patterns[i] == patterns[i][..k] + patterns[i][k..];
    assert patterns[i] <= (before + after)[at..];
  }

  /** One pass is enough exactly when at none of its matches the bytes kept on the two sides form a pattern. */
  lemma OnePassIff(patterns: seq<Bytes>, s: Bytes)
    requires NonEmptyPatterns(patterns) && PlainPatterns(patterns)
    ensures Settled(patterns, Filtered(patterns, s)) <==> !Exposes(patterns, [], s)
    ensures Filtered(patterns, Filtered(patterns, s)) == Filtered(patterns, s) <==> !Exposes(patterns, [], s)
  {
    hide Match, NonEmptyPatterns, PlainPatterns, Starts, Filtered, Exposes;
    var kept := Filtered(patterns, s);
    SettledMeansNoStart(patterns, kept);
    UnchangedIff(patterns, kept);
    assert [] + kept == kept;
    if Exposes(patterns, [], s) {
      ExposedIsLeft(patterns, [], s);
    } else {
      forall at | 0 <= at < |kept| ensures !Starts(patterns, kept[at..]) {
        if Starts(patterns, kept[at..]) {
          LeftCrosses(patterns, [], s, at);
        }
      }
    }
  }

  /** Every match the pass takes ends with the bytes or before a byte that ends a value. */
  predicate Whole(patterns: seq<Bytes>, s: Bytes)
    requires NonEmptyPatterns(patterns)
    decreases |s|
  {
    s == [] ||
    (MatchProgress(patterns, s);
     match Match(patterns, s)
     case Some(n) => AtEnd(s[n..]) && Whole(patterns, s[n..])
     case None => Whole(patterns, s[1..]))
  }

  predicate AtEnd(b: Bytes) { b == [] || EndsValue(b[0]) }

  lemma {:induction false} WholeKeepsEnd(patterns: seq<Bytes>, s: Bytes)
    requires NonEmptyPatterns(patterns) && Whole(patterns, s) && AtEnd(s)
    ensures AtEnd(Filtered(patterns, s))
    decreases |s|
  {
    hide Match, NonEmptyPatterns;
    if s != [] && Match(patterns, s).Some? {
      MatchProgress(patterns, s);
      WholeKeepsEnd(patterns, s[Match(patterns, s).value..]);
    }
  }

  lemma {:induction false} WholeExposesNothing(patterns: seq<Bytes>, before: Bytes, s: Bytes)
    requires NonEmptyPatterns(patterns) && PlainPatterns(patterns) && Whole(patterns, s)
    ensures !Exposes(patterns, before, s)
    decreases |s|
  {
    hide Match, NonEmptyPatterns, Filtered;
    if s != [] {
      MatchProgress(patterns, s);
      if Match(patterns, s).None? {
        WholeExposesNothing(patterns, before + [s[0]], s[1..]);
      } else {
        var rest := s[Match(patterns, s).value..];
        WholeKeepsEnd(patterns, rest);
        WholeExposesNothing(patterns, before, rest);
      }
    }
  }

  /** A list whose options all end at a separator is settled by one pass. */
  lemma WholeOptionsSettle(patterns: seq<Bytes>, s: Bytes)
    requires NonEmptyPatterns(patterns) && PlainPatterns(patterns) && Whole(patterns, s)
    ensures Settled(patterns, Filtered(patterns, s))
  {
    hide *;
    WholeExposesNothing(patterns, [], s);
    OnePassIff(patterns, s);
  }

  // ---------------------------------------------------------------------------------------
  // The two filters
  // ---------------------------------------------------------------------------------------

  function VerityPatterns(): (patterns: seq<Bytes>)
    ensures NonEmptyPatterns(patterns)
  {
    [Ascii("verifyatboot"), Ascii("verify"), Ascii("avb_keys"), Ascii("avb"), Ascii("support_scfs"), Ascii("fsverity")]
  }

  function EncryptionPatterns(): (patterns: seq<Bytes>)
    ensures NonEmptyPatterns(patterns)
  {
    [Ascii("forceencrypt"), Ascii("forcefdeorfbe"), Ascii("fileencryption")]
  }

  method PatchVerity(buf: array<byte>) returns (sz: nat)
    modifies buf
    ensures var kept := Filtered(VerityPatterns(), old(buf[..]));
            && sz == |kept| && buf[..] == kept + Zeros(buf.Length - |kept|)
            && (Settled(VerityPatterns(), kept) <==> !Exposes(VerityPatterns(), [], old(buf[..])))
  {
    hide Filtered, VerityPatterns, Settled, Exposes;
    VerityIsPlain();
    OnePassIff(VerityPatterns(), buf[..]);
    sz := RemovePattern(buf, VerityPatterns());
  }

  method PatchEncryption(buf: array<byte>) returns (sz: nat)
    modifies buf
    ensures var kept := Filtered(EncryptionPatterns(), old(buf[..]));
            && sz == |kept| && buf[..] == kept + Zeros(buf.Length - |kept|)
            && (Settled(EncryptionPatterns(), kept) <==> !Exposes(EncryptionPatterns(), [], old(buf[..])))
  {
    hide Filtered, EncryptionPatterns, Settled, Exposes;
    EncryptionIsPlain();
    OnePassIff(EncryptionPatterns(), buf[..]);
    sz := RemovePattern(buf, EncryptionPatterns());
  }

  predicate Letters(s: string) { forall i :: 0 <= i < |s| ==> '_' <= s[i] <= 'z' }

  lemma LettersArePlain(s: string)
    requires Letters(s)
    ensures PlainPattern(Ascii(s))
  {
  }

  lemma VerityIsPlain()
    ensures PlainPatterns(VerityPatterns())
  {
    hide PlainPattern, Ascii;
    LettersArePlain("verifyatboot");
    LettersArePlain("verify");
    LettersArePlain("avb_keys");
    LettersArePlain("avb");
    LettersArePlain("support_scfs");
    LettersArePlain("fsverity");
  }

  lemma EncryptionIsPlain()
    ensures PlainPatterns(EncryptionPatterns())
  {
    hide PlainPattern, Ascii;
    LettersArePlain("forceencrypt");
    LettersArePlain("forcefdeorfbe");
    LettersArePlain("fileencryption");
  }

  lemma NoneStarts(b: Bytes)
    requires b != [] && b[0] !in {0x66, 0x73}
    requires (b[0] == 0x61 ==> |b| > 2 && b[2] != 0x62) && (b[0] == 0x76 ==> |b| > 1 && b[1] != 0x65)
    ensures !Starts(VerityPatterns(), b)
  {
    var ps := VerityPatterns();
    assert ps[0][1] == 0x65 && ps[1][1] == 0x65 && ps[2][2] == 0x62 && ps[3][2] == 0x62;
  }

  lemma AvbMatches(b: Bytes)
    requires Ascii("avb") <= b && (|b| > 3 ==> b[3] !in {0x5f, EQUALS})
    ensures Match(VerityPatterns(), b) == Some(3)
  {
    hide ValueLength;
    var ps := VerityPatterns();
    assert b[0] == 0x61;
    assert ps[0][0] == 0x76 && ps[1][0] == 0x76 && ps[2][3] == 0x5f;
    assert FirstMatch(ps[3..], b) == Some(3);
    assert ps[2..][1..] == ps[3..] && ps[1..][1..] == ps[2..];
    assert FirstMatch(ps[2..], b) == Some(3);
    assert FirstMatch(ps[1..], b) == Some(3);
    assert b[0..] == b;
  }

  /** One pass of the verity filter is not always enough: `avavbb` leaves `avb`. */
  lemma RemovalCanExpose()
    ensures Filtered(VerityPatterns(), Ascii("avavbb")) == Ascii("avb")
    ensures Match(VerityPatterns(), Ascii("avb")).Some?
  {
    hide Filtered, Match, Starts, VerityPatterns, PlainPatterns;
    var ps, s := VerityPatterns(), Ascii("avavbb");
    VerityIsPlain();
    assert s == [0x61, 0x76, 0x61, 0x76, 0x62, 0x62];
    assert Ascii("avb") == [0x61, 0x76, 0x62];
    assert s[0..] == s;
    NoneStarts(s);
    NoneStarts(s[1..]);
    NoneStarts(s[5..]);
    MatchMeansStarts(ps, s);
    MatchMeansStarts(ps, s[1..]);
    MatchMeansStarts(ps, s[5..]);
    AvbMatches(s[2..]);
    AvbMatches(Ascii("avb"));
    FilteredStep(ps, s, 0);
    FilteredStep(ps, s, 1);
    FilteredStep(ps, s, 2);
    FilteredStep(ps, s, 5);
    FilteredEmpty(ps);
  }
}
