/** The table of a vendor image's ramdisks: one entry of fixed size for each part of the ramdisk block. */
module RamdiskTable {
  import opened Common
  import opened LittleEndian
  import opened Format
  import opened BootHeader

  const ENTRY_SIZE := 108

  type Entry = e: Bytes | |e| == 108 witness Zeros(108)

  function PartSize(e: Entry): u32 { Word(e, 0) }

  function PartOffset(e: Entry): u32 { Word(e, 4) }

  function UpToNul(s: Bytes): Bytes {
    if s == [] || s[0] == 0 then [] else [s[0]] + UpToNul(s[1..])
  }

  /** The file of a part, without its suffix; a part without a name goes to the plain ramdisk file. */
  function FileKey(e: Entry): Bytes {
    var name := UpToNul(e[12..44]);
    if name == [] then Ascii("ramdisk") else name
  }

  function Entries(t: Bytes, n: nat): (es: seq<Entry>)
    requires ENTRY_SIZE * n <= |t|
    ensures |es| == n
  {
    if n == 0 then [] else Entries(t, n - 1) + [t[ENTRY_SIZE * (n - 1)..ENTRY_SIZE * (n - 1) + ENTRY_SIZE]]
  }

  function Joined(es: seq<Entry>): Bytes {
    if es == [] then [] else Joined(es[..|es| - 1]) + es[|es| - 1]
  }

  lemma {:induction false} JoinedEntries(t: Bytes, n: nat)
    requires ENTRY_SIZE * n <= |t|
    ensures Joined(Entries(t, n)) == t[..ENTRY_SIZE * n]
  {
    if n != 0 {
      JoinedEntries(t, n - 1);
      var es := Entries(t, n);
      assert es[..|es| - 1] == Entries(t, n - 1);
      var m := ENTRY_SIZE * (n - 1);
      assert t[..m] + t[m..m + ENTRY_SIZE] == t[..m + ENTRY_SIZE];
    }
  }

  /** The parts' sizes added up. */
  function Total(es: seq<Entry>): nat {
    if es == [] then 0 else Total(es[..|es| - 1]) + PartSize(es[|es| - 1])
  }

  /** The parts follow each other without gap or overlap and fill a block of the given size. */
  ghost predicate Tiles(es: seq<Entry>, size: nat) {
    (forall k :: 0 <= k < |es| ==> PartOffset(es[k]) == Total(es[..k])) && Total(es) == size
  }

  predicate Inside(e: Entry, size: nat) { PartOffset(e) + PartSize(e) <= size }

  function Part(ramdisk: Bytes, e: Entry): Bytes
    requires Inside(e, |ramdisk|)
  {
    ramdisk[PartOffset(e)..PartOffset(e) + PartSize(e)]
  }

  // ---------------------------------------------------------------------------------------
  // Rewriting the table
  // ---------------------------------------------------------------------------------------

  /** The new contents of the parts, one after the other. */
  function Section(es: seq<Entry>, content: Bytes -> Bytes): Bytes {
    if es == [] then [] else Section(es[..|es| - 1], content) + content(FileKey(es[|es| - 1]))
  }

  function Rewrite(e: Entry, offset: u32, size: u32): Entry { Put(Put(e, 4, ToLe(offset)), 0, ToLe(size)) }

  function Rewritten(es: seq<Entry>, content: Bytes -> Bytes): (r: seq<Entry>)
    ensures |r| == |es|
  {
    if es == [] then []
    else
      var init, last := es[..|es| - 1], es[|es| - 1];
      Rewritten(init, content) + [Rewrite(last, Wrap(|Section(init, content)|), Wrap(|content(FileKey(last))|))]
  }

  /** The loop of `repack` over the table. */
  method WriteParts(es: seq<Entry>, content: Bytes -> Bytes) returns (section: Bytes, table: seq<Entry>)
    ensures section == Section(es, content) && table == Rewritten(es, content)
  {
    hide Rewrite, FileKey;
    section, table := [], [];
    for i := 0 to |es|
      invariant section == Section(es[..i], content) && table == Rewritten(es[..i], content)
    {
      assert es[..i + 1][..i] == es[..i];
      var e := es[i];
      var m := content(FileKey(e));
      table := table + [Rewrite(e, Wrap(|section|), Wrap(|m|))];
      section := section + m;
    }
    assert es[..|es|] == es;
  }

  lemma RewriteFields(e: Entry, offset: u32, size: u32)
    ensures var r := Rewrite(e, offset, size);
            PartOffset(r) == offset && PartSize(r) == size && r[8..] == e[8..] && FileKey(r) == FileKey(e)
  {
    hide UpToNul;
    var a := Put(e, 4, ToLe(offset));
    var r := Put(a, 0, ToLe(size));
    PutReads(e, 4, offset);
    PutReads(a, 0, size);
    PutKeeps(a, 0, ToLe(size), 4, 8);
    PutKeeps(e, 4, ToLe(offset), 8, 108);
    PutKeeps(a, 0, ToLe(size), 8, 108);
    assert r[8..] == r[8..108] && e[8..] == e[8..108];
    assert r[12..44] == r[8..][4..36] && e[12..44] == e[8..][4..36];
  }

  lemma RewriteSame(e: Entry)
    ensures Rewrite(e, PartOffset(e), PartSize(e)) == e
  {
    ToFromLe(e[4..8]);
    ToFromLe(e[0..4]);
    assert Put(e, 4, e[4..8]) == e;
    assert Put(e, 0, e[0..4]) == e;
  }

  /** Whatever the files hold, the rewritten entries tile the section that was written. */
  lemma {:induction false} RewrittenTiles(es: seq<Entry>, content: Bytes -> Bytes)
    requires |Section(es, content)| < WORD_LIMIT
    ensures Tiles(Rewritten(es, content), |Section(es, content)|)
  {
    hide PartOffset, PartSize, Rewrite, FileKey;
    if es != [] {
      var init, last := es[..|es| - 1], es[|es| - 1];
      RewrittenTiles(init, content);
      var before, after := Rewritten(init, content), Rewritten(es, content);
      RewriteFields(last, Wrap(|Section(init, content)|), Wrap(|content(FileKey(last))|));
      assert after[..|after| - 1] == before;
      forall k | 0 <= k < |after| ensures PartOffset(after[k]) == Total(after[..k]) {
        if k < |before| {
          assert after[k] == before[k] && after[..k] == before[..k];
        }
      }
    }
  }

  /** Nothing but the place and the size of a part is rewritten. */
  lemma {:induction false} RewrittenKeeps(es: seq<Entry>, content: Bytes -> Bytes, k: nat)
    requires k < |es|
    ensures Rewritten(es, content)[k][8..] == es[k][8..] && FileKey(Rewritten(es, content)[k]) == FileKey(es[k])
  {
    hide Rewrite, FileKey;
    var init, last := es[..|es| - 1], es[|es| - 1];
    if k == |es| - 1 {
      RewriteFields(last, Wrap(|Section(init, content)|), Wrap(|content(FileKey(last))|));
    } else {
      RewrittenKeeps(init, content, k);
    }
  }

  /** The file of part `k` holds what the block has there. */
  ghost predicate HoldsPart(es: seq<Entry>, ramdisk: Bytes, content: Bytes -> Bytes, k: nat)
    requires k < |es|
  {
    Inside(es[k], |ramdisk|) && content(FileKey(es[k])) == Part(ramdisk, es[k])
  }

  lemma {:induction false} SameUpTo(es: seq<Entry>, ramdisk: Bytes, content: Bytes -> Bytes, n: nat)
    requires n <= |es| && |ramdisk| < WORD_LIMIT
    requires forall k :: 0 <= k < n ==> PartOffset(es[k]) == Total(es[..k])
    requires forall k :: 0 <= k < n ==> HoldsPart(es, ramdisk, content, k)
    ensures Total(es[..n]) <= |ramdisk| && Section(es[..n], content) == ramdisk[..Total(es[..n])]
    ensures Rewritten(es[..n], content) == es[..n]
  {
    hide PartOffset, PartSize, Rewrite, FileKey, Section, Rewritten, Total, Part;
    if n == 0 {
      Nothing(content);
      assert es[..0] == [];
    } else {
      SameUpTo(es, ramdisk, content, n - 1);
      OneMore(es, content, n - 1);
      assert HoldsPart(es, ramdisk, content, n - 1);
      NextPart(ramdisk, es[n - 1]);
      RewriteSame(es[n - 1]);
      assert es[..n] == es[..n - 1] + [es[n - 1]];
    }
  }

  lemma Nothing(content: Bytes -> Bytes)
    ensures Total([]) == 0 && Section([], content) == [] && Rewritten([], content) == []
  {
  }

  lemma OneMore(es: seq<Entry>, content: Bytes -> Bytes, n: nat)
    requires n < |es|
    ensures Total(es[..n + 1]) == Total(es[..n]) + PartSize(es[n])
    ensures Section(es[..n + 1], content) == Section(es[..n], content) + content(FileKey(es[n]))
    ensures Rewritten(es[..n + 1], content) == Rewritten(es[..n], content)
              + [Rewrite(es[n], Wrap(|Section(es[..n], content)|), Wrap(|content(FileKey(es[n]))|))]
  {
    hide PartSize, Rewrite, FileKey;
    assert es[..n + 1][..n] == es[..n];
  }

  lemma NextPart(ramdisk: Bytes, e: Entry)
    requires Inside(e, |ramdisk|)
    ensures ramdisk[..PartOffset(e)] + Part(ramdisk, e) == ramdisk[..PartOffset(e) + PartSize(e)]
    ensures |Part(ramdisk, e)| == PartSize(e)
  {
    hide PartOffset, PartSize;
  }

  lemma {:induction false} RewrittenAt(es: seq<Entry>, content: Bytes -> Bytes, k: nat)
    requires k < |es|
    ensures Rewritten(es, content)[k] ==
            Rewrite(es[k], Wrap(|Section(es[..k], content)|), Wrap(|content(FileKey(es[k]))|))
  {
    hide Rewrite, FileKey, Section;
    if k < |es| - 1 {
      var init := es[..|es| - 1];
      RewrittenAt(init, content, k);
      assert init[..k] == es[..k];
    }
  }

  lemma {:induction false} SectionHas(es: seq<Entry>, content: Bytes -> Bytes, k: nat)
    requires k < |es|
    ensures HasAt(Section(es, content), |Section(es[..k], content)|, content(FileKey(es[k])))
  {
    hide FileKey;
    if k < |es| - 1 {
      var init := es[..|es| - 1];
      SectionHas(init, content, k);
      assert init[..k] == es[..k];
      var at, part := |Section(es[..k], content)|, content(FileKey(es[k]));
      assert Section(es, content)[at..at + |part|] == Section(init, content)[at..at + |part|];
    }
  }

  /** Writing the parts gives block and table back exactly when the entries tile the block and every
      file holds what the block has at each of its entries. */
  lemma SameTable(es: seq<Entry>, ramdisk: Bytes, content: Bytes -> Bytes)
    requires |ramdisk| < WORD_LIMIT
    ensures Section(es, content) == ramdisk && Rewritten(es, content) == es <==>
            Tiles(es, |ramdisk|) && forall k :: 0 <= k < |es| ==> HoldsPart(es, ramdisk, content, k)
  {
    hide PartOffset, PartSize, Rewritten, FileKey, HoldsPart, Tiles, Section;
    if Tiles(es, |ramdisk|) && forall k :: 0 <= k < |es| ==> HoldsPart(es, ramdisk, content, k) {
      TiledIsSame(es, ramdisk, content);
    }
    if Section(es, content) == ramdisk && Rewritten(es, content) == es {
      RewrittenTiles(es, content);
      forall k | 0 <= k < |es| ensures HoldsPart(es, ramdisk, content, k) {
        SameHolds(es, ramdisk, content, k);
      }
    }
  }

  lemma SameHolds(es: seq<Entry>, ramdisk: Bytes, content: Bytes -> Bytes, k: nat)
    requires k < |es| && |ramdisk| < WORD_LIMIT
    requires Section(es, content) == ramdisk && Rewritten(es, content) == es
    ensures HoldsPart(es, ramdisk, content, k)
  {
    hide PartOffset, PartSize, Rewritten, Rewrite, FileKey, Section;
    RewrittenAt(es, content, k);
    SectionHas(es, content, k);
    RewriteFields(es[k], Wrap(|Section(es[..k], content)|), Wrap(|content(FileKey(es[k]))|));
  }

  lemma TiledIsSame(es: seq<Entry>, ramdisk: Bytes, content: Bytes -> Bytes)
    requires Tiles(es, |ramdisk|) && |ramdisk| < WORD_LIMIT
    requires forall k :: 0 <= k < |es| ==> HoldsPart(es, ramdisk, content, k)
    ensures Section(es, content) == ramdisk && Rewritten(es, content) == es
  {
    hide PartOffset, PartSize, Rewritten, FileKey, HoldsPart;
    SameUpTo(es, ramdisk, content, |es|);
    assert es[..|es|] == es;
    assert ramdisk[..|ramdisk|] == ramdisk;
  }

  lemma {:induction false} JoinedLength(es: seq<Entry>)
    ensures |Joined(es)| == ENTRY_SIZE * |es|
  {
    if es != [] {
      JoinedLength(es[..|es| - 1]);
    }
  }

  lemma {:induction false} JoinedInjective(a: seq<Entry>, b: seq<Entry>)
    requires |a| == |b|
    ensures Joined(a) == Joined(b) <==> a == b
  {
    if a != [] {
      var x, y := a[..|a| - 1], b[..|b| - 1];
      JoinedInjective(x, y);
      JoinedLength(x);
      JoinedLength(y);
      assert Joined(a)[..|Joined(x)|] == Joined(x) && Joined(b)[..|Joined(y)|] == Joined(y);
      assert Joined(a)[|Joined(x)|..] == a[|a| - 1] && Joined(b)[|Joined(y)|..] == b[|b| - 1];
      assert a == x + [a[|a| - 1]] && b == y + [b[|b| - 1]];
    }
  }
}
