/** `backup` and `restore` of a cpio archive: what a patched archive must remember to become the
    original again, and how it does. */
module CpioBackup {
  import opened Common
  import opened LittleEndian
  import opened Names
  import opened CpioFormat

  /** The xz codec, as a pair of functions. */
  datatype Codec = Codec(compress: Bytes -> Bytes, decompress: Bytes -> Option<Bytes>)

  ghost predicate ValidCodec(xz: Codec) {
    forall b :: xz.decompress(xz.compress(b)) == Some(b)
  }

  const SLASH: byte := 0x2f

  /** ".backup", ".backup/", ".xz", ".rmlist" and ".magisk" */
  function BackupDir(): Name { [0x2e, 0x62, 0x61, 0x63, 0x6b, 0x75, 0x70] }
  function Prefix(): Name { BackupDir() + [SLASH] }
  function XzSuffix(): Name { [0x2e, 0x78, 0x7a] }
  function RmListName(): Name { [0x2e, 0x72, 0x6d, 0x6c, 0x69, 0x73, 0x74] }
  function MagiskName(): Name { [0x2e, 0x6d, 0x61, 0x67, 0x69, 0x73, 0x6b] }

  // ---------------------------------------------------------------------------------------
  // Entries and paths
  // ---------------------------------------------------------------------------------------

  const DIRECTORY_MODE: u32 := 0x4000
  const REGULAR_MODE: u32 := 0x8000

  /** The file type bits say "regular file". */
  predicate IsRegular(e: Entry) { e.mode / 0x1000 % 16 == 8 }

  function CompressEntry(xz: Codec, e: Entry): Entry { if IsRegular(e) then e.(data := xz.compress(e.data)) else e }

  /** `decompress`: the entry unpacked, if it can be. */
  function DecompressEntry(xz: Codec, e: Entry): Option<Entry> {
    if !IsRegular(e) then None
    else match xz.decompress(e.data)
         case Some(data) => Some(e.(data := data))
         case None => None
  }

  /** The pieces of s between separators. */
  function Split(s: Bytes, sep: byte): (parts: seq<Bytes>)
    decreases |s|
  {
    if s == [] then [[]]
    else
      var rest := Split(s[1..], sep);
      if s[0] == sep then [[]] + rest
      else if rest == [] then [[s[0]]]
      else [[s[0]] + rest[0]] + rest[1..]
  }

  function NonEmpty(parts: seq<Bytes>): seq<Bytes> {
    if parts == [] then [] else if parts[0] == [] then NonEmpty(parts[1..]) else [parts[0]] + NonEmpty(parts[1..])
  }

  function JoinPath(parts: seq<Bytes>): Bytes {
    if parts == [] then [] else if |parts| == 1 then parts[0] else parts[0] + [SLASH] + JoinPath(parts[1..])
  }

  /** `norm_path`: no empty components. */
  function NormPath(path: Name): Name { JoinPath(NonEmpty(Split(path, SLASH))) }

  predicate HasPrefix(n: Name, p: Name) { p <= n }
  predicate HasSuffix(n: Name, p: Name) { |p| <= |n| && n[|n| - |p|..] == p }

  /** `rm`: an entry, and if asked what is below it. */
  function Removed(entries: Archive, path: Name, recursive: bool): Archive {
    var p := NormPath(path);
    map n | n in entries && n != p && !(recursive && HasPrefix(n, p + [SLASH])) :: entries[n]
  }

  /** Entries that belong to a backup. */
  predicate IsBackup(n: Name) { n == BackupDir() || HasPrefix(n, Prefix()) }

  function WithoutBackup(entries: Archive): Archive { map n | n in entries && !IsBackup(n) :: entries[n] }

  // ---------------------------------------------------------------------------------------
  // backup
  // ---------------------------------------------------------------------------------------

  /** The original has it, and the patched archive does not have the same data. */
  predicate Differs(o: Archive, s: Archive, n: Name) { n in o && (n !in s || s[n].data != o[n].data) }

  function BackupName(n: Name, e: Entry, skip: bool): Name {
    Prefix() + n + if !skip && IsRegular(e) then XzSuffix() else []
  }

  function BackupEntry(xz: Codec, e: Entry, skip: bool): Entry { if skip then e else CompressEntry(xz, e) }

  /** The backed-up entries among `names`, stored in this order. */
  function Backups(o: Archive, s: Archive, xz: Codec, skip: bool, names: seq<Name>): Archive {
    if names == [] then map[BackupDir() := Entry(DIRECTORY_MODE, 0, 0, 0, 0, [])]
    else
      var before, n := Backups(o, s, xz, skip, names[..|names| - 1]), names[|names| - 1];
      if Differs(o, s, n) then before[BackupName(n, o[n], skip) := BackupEntry(xz, o[n], skip)] else before
  }

  /** The names among `names` that are new, each followed by NUL. */
  function RmList(o: Archive, names: seq<Name>): Bytes {
    if names == [] then []
    else
      var before, n := RmList(o, names[..|names| - 1]), names[|names| - 1];
      if n !in o then before + n + [0] else before
  }

  function BackedUp(o: Archive, s: Archive, xz: Codec, skip: bool, originNames: seq<Name>, names: seq<Name>): Archive {
    var rm := RmList(o, names);
    var all := s + Backups(o, s, xz, skip, originNames);
    if rm == [] then all else all[Prefix() + RmListName() := Entry(REGULAR_MODE, 0, 0, 0, 0, rm)]
  }

  /** What is behind the current place in one iterator is larger than what is before it in the other. */
  ghost predicate Interleaved(ls: seq<Name>, i: nat, rs: seq<Name>, j: nat) {
    && i <= |ls| && j <= |rs|
    && (forall k, m :: 0 <= k < i && j <= m < |rs| ==> Less(ls[k], rs[m]))
    && (forall k, m :: 0 <= k < j && i <= m < |ls| ==> Less(rs[k], ls[m]))
  }

  method Backup(entries: Archive, origin: Archive, skip: bool, xz: Codec) returns (out: Archive)
    ensures var o, s := WithoutBackup(origin), WithoutBackup(entries);
            out == BackedUp(o, s, xz, skip, Sorted(o.Keys), Sorted(s.Keys))
  {
    hide Sorted, Interleaved, Lists, Less, BackupName, BackupEntry, WithoutBackup, Removed, Prefix, BackupDir;
    hide RmListName, Backups, RmList;
    var backups: Archive := map[BackupDir() := Entry(DIRECTORY_MODE, 0, 0, 0, 0, [])];
    var rm := [];
    var o, s := Removed(origin, BackupDir(), true), Removed(entries, BackupDir(), true);
    RemoveBackup(origin);
    RemoveBackup(entries);
    var ls := IterKeys(o.Keys);
    var rs := IterKeys(s.Keys);
    var i, j := 0, 0;
    StartMerge(o, s, xz, skip, ls, rs);
    while i < |ls| || j < |rs|
      invariant i <= |ls| && j <= |rs| && Interleaved(ls, i, rs, j)
      invariant backups == Backups(o, s, xz, skip, ls[..i])
      invariant rm == RmList(o, rs[..j])
      decreases |ls| + |rs| - i - j
    {
      var order :=
        if i == |ls| then 1 else if j == |rs| then -1
        else if ls[i] == rs[j] then 0 else if Less(ls[i], rs[j]) then -1 else 1;
      MergeStep(ls, o.Keys, i, rs, s.Keys, j, order);
      if order <= 0 {
        if order < 0 || s[ls[i]].data != o[ls[i]].data {
          var e := o[ls[i]];
          backups := backups[BackupName(ls[i], e, skip) := BackupEntry(xz, e, skip)];
        }
        BackupsStep(o, s, xz, skip, ls, i);
        i := i + 1;
      } else {
        rm := rm + rs[j] + [0];
      }
      if order >= 0 {
        RmListStep(o, rs, j);
        j := j + 1;
      }
    }
    assert ls[..|ls|] == ls && rs[..|rs|] == rs;
    out := s + backups;
    if rm != [] {
      out := out[Prefix() + RmListName() := Entry(REGULAR_MODE, 0, 0, 0, 0, rm)];
    }
  }

  lemma StartMerge(o: Archive, s: Archive, xz: Codec, skip: bool, ls: seq<Name>, rs: seq<Name>)
    ensures Interleaved(ls, 0, rs, 0) && RmList(o, rs[..0]) == []
    ensures Backups(o, s, xz, skip, ls[..0]) == map[BackupDir() := Entry(DIRECTORY_MODE, 0, 0, 0, 0, [])]
  {
  }

  lemma BackupsStep(o: Archive, s: Archive, xz: Codec, skip: bool, ls: seq<Name>, i: nat)
    requires i < |ls|
    ensures
      var before, n := Backups(o, s, xz, skip, ls[..i]), ls[i];
      Backups(o, s, xz, skip, ls[..i + 1]) ==
        if Differs(o, s, n) then before[BackupName(n, o[n], skip) := BackupEntry(xz, o[n], skip)] else before
  {
    assert ls[..i + 1][..i] == ls[..i];
  }

  lemma RmListStep(o: Archive, rs: seq<Name>, j: nat)
    requires j < |rs|
    ensures RmList(o, rs[..j + 1]) == if rs[j] !in o then RmList(o, rs[..j]) + rs[j] + [0] else RmList(o, rs[..j])
  {
    assert rs[..j + 1][..j] == rs[..j];
  }

  /** One turn of the sorted merge: which archive has the smaller name, and that the other has not got it. */
  lemma MergeStep(ls: seq<Name>, lset: set<Name>, i: nat, rs: seq<Name>, rset: set<Name>, j: nat, order: int)
    requires Lists(ls, lset) && Lists(rs, rset) && Interleaved(ls, i, rs, j) && (i < |ls| || j < |rs|)
    requires order ==
               if i == |ls| then 1 else if j == |rs| then -1
               else if ls[i] == rs[j] then 0 else if Less(ls[i], rs[j]) then -1 else 1
    ensures order < 0 ==> i < |ls| && ls[i] in lset && ls[i] !in rset && Interleaved(ls, i + 1, rs, j)
    ensures order > 0 ==> j < |rs| && rs[j] in rset && rs[j] !in lset && Interleaved(ls, i, rs, j + 1)
    ensures order == 0 ==>
              && i < |ls| && j < |rs| && ls[i] == rs[j] && ls[i] in lset && ls[i] in rset
              && Interleaved(ls, i + 1, rs, j + 1)
  {
    if i < |ls| && j < |rs| {
      LessTotal(ls[i], rs[j]);
    }
    if order < 0 {
      Missing(ls[i], rs, j);
      AboveAll(ls[i], rs, j);
    } else if order > 0 {
      Missing(rs[j], ls, i);
      AboveAll(rs[j], ls, i);
    }
  }

  lemma Missing(n: Name, names: seq<Name>, k: nat)
    requires k <= |names| && forall i, j :: 0 <= i < j < |names| ==> Less(names[i], names[j])
    requires forall i :: 0 <= i < k ==> Less(names[i], n)
    requires k < |names| ==> Less(n, names[k])
    ensures n !in names
  {
    forall i | 0 <= i < |names|
      ensures names[i] != n
    {
      if i < k {
        LessAsymmetric(names[i], n);
      } else {
        if i > k {
          LessTransitive(n, names[k], names[i]);
        }
        LessAsymmetric(n, names[i]);
      }
    }
  }

  lemma AboveAll(n: Name, names: seq<Name>, k: nat)
    requires k <= |names| && forall i, j :: 0 <= i < j < |names| ==> Less(names[i], names[j])
    requires k < |names| ==> Less(n, names[k])
    ensures forall m :: k <= m < |names| ==> Less(n, names[m])
  {
    forall m | k < m < |names|
      ensures Less(n, names[m])
    {
      LessTransitive(n, names[k], names[m]);
    }
  }

  lemma NormBackupDir()
    ensures NormPath(BackupDir()) == BackupDir()
  {
    hide Split;
    SplitWhole(BackupDir(), SLASH);
    assert [BackupDir()][1..] == [];
  }

  lemma RemoveBackup(entries: Archive)
    ensures Removed(entries, BackupDir(), true) == WithoutBackup(entries)
  {
    hide NormPath, BackupDir;
    NormBackupDir();
  }

  // ---------------------------------------------------------------------------------------
  // restore
  // ---------------------------------------------------------------------------------------

  /** A stored entry to be restored, as opposed to the directory, the list of new names and a marker. */
  predicate IsStored(k: Name) {
    HasPrefix(k, Prefix()) && k != Prefix() + RmListName() && k != Prefix() + MagiskName()
  }

  /** Was the entry stored compressed? */
  function Unpacked(xz: Codec, k: Name, e: Entry): Option<Entry> {
    if |k| >= |Prefix()| + |XzSuffix()| && HasSuffix(k, XzSuffix()) then DecompressEntry(xz, e) else None
  }

  /** The name and the entry that a stored entry stands for. */
  function RestoredName(xz: Codec, k: Name, e: Entry): Name
    requires IsStored(k)
  {
    if Unpacked(xz, k, e).Some? then k[|Prefix()|..|k| - |XzSuffix()|] else k[|Prefix()|..]
  }

  function RestoredEntry(xz: Codec, k: Name, e: Entry): Entry {
    var u := Unpacked(xz, k, e);
    if u.Some? then u.value else e
  }

  /** What the stored entries among `names` restore, in this order. */
  function Restores(x: Archive, xz: Codec, names: seq<Name>): Archive {
    if names == [] then map[]
    else
      var before, k := Restores(x, xz, names[..|names| - 1]), names[|names| - 1];
      if k in x && IsStored(k) then before[RestoredName(xz, k, x[k]) := RestoredEntry(xz, k, x[k])] else before
  }

  function StoredRmList(x: Archive): Bytes {
    var k := Prefix() + RmListName();
    if k in x && ValidUtf8(x[k].data) then x[k].data else []
  }

  /** Every name of the list removed. */
  function RemoveAll(entries: Archive, names: seq<Name>): Archive
    decreases |names|
  {
    if names == [] then entries else RemoveAll(Removed(entries, names[0], false), names[1..])
  }

  function Restored(x: Archive, xz: Codec, names: seq<Name>): Archive {
    var rm, b := StoredRmList(x), Restores(x, xz, names);
    if rm == [] && b == map[] then map[] else RemoveAll(WithoutBackup(x), NonEmpty(Split(rm, 0))) + b
  }

  method Restore(entries: Archive, xz: Codec) returns (out: Archive)
    ensures out == Restored(entries, xz, Sorted(entries.Keys))
  {
    hide Sorted, Restores, RemoveAll, StoredRmList, Split, NonEmpty, Lists, Kept, HasPrefix, Removed, WithoutBackup;
    hide BackupDir;
    var ks := IterKeys(entries.Keys);
    var rest, rm, backups := ExtractBackups(entries, xz, ks);
    AllIterated(entries, ks);
    rest := Removed(rest, BackupDir(), false);
    if rm == [] && backups == map[] {
      return map[];
    }
    rest := RemoveListed(rest, Split(rm, 0));
    out := rest + backups;
  }

  /** The entries left when the backups among `done` are taken out. */
  function Kept(entries: Archive, done: seq<Name>): Archive {
    map n | n in entries && !(n in done && HasPrefix(n, Prefix())) :: entries[n]
  }

  method ExtractBackups(entries: Archive, xz: Codec, ks: seq<Name>) returns (rest: Archive, rm: Bytes, backups: Archive)
    requires Lists(ks, entries.Keys)
    ensures rest == Kept(entries, ks) && rm == StoredRmList(entries) && backups == Restores(entries, xz, ks)
  {
    hide Kept, Restores, RestoredName, RestoredEntry, Lists, HasPrefix, Prefix, RmListName, MagiskName, ValidUtf8;
    rest, rm, backups := entries, [], map[];
    StartRestore(entries, xz, ks);
    for i := 0 to |ks|
      invariant backups == Restores(entries, xz, ks[..i])
      invariant rm == if Prefix() + RmListName() in ks[..i] then StoredRmList(entries) else []
      invariant rest == Kept(entries, ks[..i])
    {
      var k := ks[i];
      RestoreStep(entries, xz, ks, i);
      if HasPrefix(k, Prefix()) {
        rest := rest - {k};
        if k == Prefix() + RmListName() {
          if ValidUtf8(entries[k].data) {
            rm := rm + entries[k].data;
          }
        } else if k != Prefix() + MagiskName() {
          backups := backups[RestoredName(xz, k, entries[k]) := RestoredEntry(xz, k, entries[k])];
        }
      } else {
        RmListHasPrefix();
      }
    }
    assert ks[..|ks|] == ks;
    AllIterated(entries, ks);
  }

  method RemoveListed(entries: Archive, list: seq<Bytes>) returns (out: Archive)
    ensures out == RemoveAll(entries, NonEmpty(list))
  {
    hide Removed;
    out := entries;
    assert list[0..] == list;
    for i := 0 to |list|
      invariant RemoveAll(out, NonEmpty(list[i..])) == RemoveAll(entries, NonEmpty(list))
    {
      NonEmptyStep(list, i);
      if list[i] != [] {
        out := Removed(out, list[i], false);
      }
    }
  }

  lemma StartRestore(entries: Archive, xz: Codec, ks: seq<Name>)
    ensures Kept(entries, ks[..0]) == entries && Restores(entries, xz, ks[..0]) == map[]
  {
  }

  lemma RmListHasPrefix()
    ensures HasPrefix(Prefix() + RmListName(), Prefix())
  {
  }

  lemma RestoreStep(entries: Archive, xz: Codec, ks: seq<Name>, i: nat)
    requires i < |ks| && Lists(ks, entries.Keys)
    ensures ks[i] in entries && ks[i] !in ks[..i] && ks[..i + 1] == ks[..i] + [ks[i]]
    ensures Kept(entries, ks[..i + 1]) ==
              if HasPrefix(ks[i], Prefix()) then Kept(entries, ks[..i]) - {ks[i]} else Kept(entries, ks[..i])
    ensures Restores(entries, xz, ks[..i + 1]) ==
              if IsStored(ks[i]) then
                var e := entries[ks[i]];
                Restores(entries, xz, ks[..i])[RestoredName(xz, ks[i], e) := RestoredEntry(xz, ks[i], e)]
              else Restores(entries, xz, ks[..i])
  {
    hide Prefix, RmListName, MagiskName, RestoredName, RestoredEntry, IsStored, HasPrefix;
    assert ks[..i + 1][..i] == ks[..i];
    assert ks[i] in ks;
    if ks[i] in ks[..i] {
      var j :| 0 <= j < i && ks[j] == ks[i];
      ListsDistinct(ks, entries.Keys, j, i);
      assert false;
    }
  }

  lemma AllIterated(entries: Archive, ks: seq<Name>)
    requires Lists(ks, entries.Keys)
    ensures Removed(Kept(entries, ks), BackupDir(), false) == WithoutBackup(entries)
    ensures Prefix() + RmListName() !in ks ==> StoredRmList(entries) == []
  {
    hide BackupDir, NormPath, RmListName;
    NormBackupDir();
  }

  lemma NonEmptyStep(list: seq<Bytes>, i: nat)
    requires i < |list|
    ensures NonEmpty(list[i..]) ==
            if list[i] == [] then NonEmpty(list[i + 1..]) else [list[i]] + NonEmpty(list[i + 1..])
  {
    assert list[i..][1..] == list[i + 1..];
  }

  // ---------------------------------------------------------------------------------------
  // restore undoes backup
  // ---------------------------------------------------------------------------------------

  /** New names that `restore` can remove again. */
  ghost predicate RemovableNames(o: Archive, s: Archive) {
    forall n :: n in s && n !in o ==> n != [] && NormPath(n) == n
  }

  /** Stored as it is, the entry would be taken for a compressed one. */
  predicate LooksPacked(xz: Codec, n: Name, e: Entry) {
    IsRegular(e) && HasSuffix(n, XzSuffix()) && xz.decompress(e.data).Some?
  }

  predicate IsSpecial(n: Name) { n == RmListName() || n == MagiskName() }

  /** The entry is stored under a name that stands for it: not one of the two special names, and
      without compression not one that looks compressed. */
  predicate ComesBack(xz: Codec, n: Name, e: Entry, skip: bool) {
    if skip then !IsSpecial(n) && !LooksPacked(xz, n, e) else IsRegular(e) || !IsSpecial(n)
  }

  ghost predicate AllComeBack(o: Archive, s: Archive, xz: Codec, skip: bool) {
    forall n :: Differs(o, s, n) ==> ComesBack(xz, n, o[n], skip)
  }

  /** No two entries are stored under one name, which only suffixes can cause. */
  ghost predicate NoSharedNames(o: Archive, s: Archive, skip: bool) {
    forall n :: !skip && Differs(o, s, n) && IsRegular(o[n]) ==>
      !(Differs(o, s, n + XzSuffix()) && !IsRegular(o[n + XzSuffix()]))
  }

  ghost predicate Clean(o: Archive, s: Archive, xz: Codec, skip: bool) {
    RemovableNames(o, s) && AllComeBack(o, s, xz, skip) && NoSharedNames(o, s, skip)
  }

  /** The archives have names as they come from a file, and no backup of their own. */
  ghost predicate WellNamed(a: Archive) { forall n :: n in a ==> NulFree(n) && ValidUtf8(n) && !IsBackup(n) }

  ghost predicate SameContents(a: Archive, b: Archive) {
    a.Keys == b.Keys && forall n :: n in a ==> a[n].data == b[n].data
  }

  lemma SuffixFacts()
    ensures !HasSuffix(RmListName(), XzSuffix()) && !HasSuffix(MagiskName(), XzSuffix())
    ensures ValidUtf8([0])
  {
    Utf8One(0);
  }

  lemma Append(n: Name, suffix: Name)
    ensures HasSuffix(n + suffix, suffix) && (n + suffix)[..|n|] == n
  {
  }

  /** A stored entry can be told from the special ones unless it has one of their names. */
  lemma StoredUnless(n: Name, e: Entry, skip: bool)
    ensures IsStored(BackupName(n, e, skip)) <==> (!skip && IsRegular(e)) || !IsSpecial(n)
  {
    hide RmListName, MagiskName, Prefix, XzSuffix, IsRegular;
    var tail := if !skip && IsRegular(e) then XzSuffix() else [];
    var k := BackupName(n, e, skip);
    assert k == Prefix() + (n + tail);
    assert k[|Prefix()|..] == n + tail;
    assert (Prefix() + RmListName())[|Prefix()|..] == RmListName();
    assert (Prefix() + MagiskName())[|Prefix()|..] == MagiskName();
    SuffixFacts();
    Append(n, XzSuffix());
    assert skip || !IsRegular(e) ==> n + tail == n;
  }

  lemma SuffixBehindPrefix(n: Name)
    requires |n| >= |XzSuffix()|
    ensures HasSuffix(Prefix() + n, XzSuffix()) <==> HasSuffix(n, XzSuffix())
  {
    hide Prefix, XzSuffix;
    var k, m := Prefix() + n, |XzSuffix()|;
    assert k[|k| - m..] == n[|n| - m..];
  }

  /** A stored entry stands for the entry it was made from. */
  lemma Unpack(xz: Codec, n: Name, e: Entry, skip: bool)
    requires ValidCodec(xz) && ComesBack(xz, n, e, skip) && IsStored(BackupName(n, e, skip))
    ensures RestoredName(xz, BackupName(n, e, skip), BackupEntry(xz, e, skip)) == n
    ensures RestoredEntry(xz, BackupName(n, e, skip), BackupEntry(xz, e, skip)) == e
  {
    hide IsStored, RmListName, MagiskName, Prefix, XzSuffix;
    var k := BackupName(n, e, skip);
    if !skip && IsRegular(e) {
      assert k == Prefix() + n + XzSuffix();
      assert k[|k| - |XzSuffix()|..] == XzSuffix();
      assert k[|Prefix()|..|k| - |XzSuffix()|] == n;
    } else {
      assert k == Prefix() + n;
      assert k[|Prefix()|..] == n;
      if |n| >= |XzSuffix()| {
        SuffixBehindPrefix(n);
      }
    }
  }

  lemma BackupNameInjective(o: Archive, s: Archive, skip: bool, n: Name, m: Name)
    requires NoSharedNames(o, s, skip) && Differs(o, s, n) && Differs(o, s, m)
    requires BackupName(n, o[n], skip) == BackupName(m, o[m], skip)
    ensures n == m
  {
    hide Prefix, XzSuffix, IsRegular;
    var tn := if !skip && IsRegular(o[n]) then XzSuffix() else [];
    var tm := if !skip && IsRegular(o[m]) then XzSuffix() else [];
    assert (Prefix() + n + tn)[|Prefix()|..] == n + tn;
    assert (Prefix() + m + tm)[|Prefix()|..] == m + tm;
    Append(n, XzSuffix());
    Append(m, XzSuffix());
    assert n + [] == n && m + [] == m;
  }

  /** What a fold over `names` has stored. */
  lemma {:induction false} BackupsContents(o: Archive, s: Archive, xz: Codec, skip: bool, names: seq<Name>, k: Name)
    requires k != BackupDir()
    ensures
      var b := Backups(o, s, xz, skip, names);
      k in b <==> exists n :: n in names && Differs(o, s, n) && k == BackupName(n, o[n], skip)
    ensures
      var b := Backups(o, s, xz, skip, names);
      k in b ==>
        exists n ::
          n in names && Differs(o, s, n) && k == BackupName(n, o[n], skip) && b[k] == BackupEntry(xz, o[n], skip)
  {
    hide BackupName, BackupEntry, Differs, BackupDir;
    if names != [] {
      var init, last := names[..|names| - 1], names[|names| - 1];
      BackupsContents(o, s, xz, skip, init, k);
      assert names == init + [last];
    }
  }

  /** What a fold over `names` has restored. */
  lemma {:induction false} RestoresContents(x: Archive, xz: Codec, names: seq<Name>, n: Name)
    ensures
      var r := Restores(x, xz, names);
      n in r <==> exists k :: k in names && k in x && IsStored(k) && n == RestoredName(xz, k, x[k])
    ensures
      var r := Restores(x, xz, names);
      n in r ==>
        exists k ::
          && k in names && k in x && IsStored(k)
          && n == RestoredName(xz, k, x[k]) && r[n] == RestoredEntry(xz, k, x[k])
  {
    hide RestoredName, RestoredEntry, IsStored;
    if names != [] {
      var init, last := names[..|names| - 1], names[|names| - 1];
      RestoresContents(x, xz, init, n);
      assert names == init + [last];
    }
  }

  /** k stores, as e, what the original has under n. */
  ghost predicate StoredFrom(o: Archive, s: Archive, xz: Codec, skip: bool, n: Name, k: Name, e: Entry) {
    Differs(o, s, n) && k == BackupName(n, o[n], skip) && e == BackupEntry(xz, o[n], skip)
  }

  lemma BackupNameIsBackup(n: Name, e: Entry, skip: bool)
    ensures HasPrefix(BackupName(n, e, skip), Prefix()) && BackupName(n, e, skip) != BackupDir()
    ensures HasPrefix(Prefix() + RmListName(), Prefix()) && Prefix() + RmListName() != BackupDir()
  {
  }

  /** The backups in a backed-up archive are the list of new names and entries stored from the original. */
  lemma BackupsInArchive(o: Archive, s: Archive, xz: Codec, skip: bool, ls: seq<Name>, rs: seq<Name>, k: Name)
    requires WellNamed(s) && HasPrefix(k, Prefix())
    ensures
      var x, rm, r := BackedUp(o, s, xz, skip, ls, rs), RmList(o, rs), Prefix() + RmListName();
      && (k == r && rm != [] ==> k in x && x[k].data == rm)
      && (k != r || rm == [] ==>
           && (k in x ==> exists n :: StoredFrom(o, s, xz, skip, n, k, x[k]))
           && (forall n :: n in ls && Differs(o, s, n) && k == BackupName(n, o[n], skip) ==> k in x))
  {
    hide BackupName, BackupEntry, BackupDir, Prefix, RmListName, Backups, RmList, HasPrefix, NulFree, ValidUtf8;
    assert k !in s;
    PrefixIsNotDir(k);
    BackupsContents(o, s, xz, skip, ls, k);
    var b := Backups(o, s, xz, skip, ls);
    if k in b {
      var n :| n in ls && Differs(o, s, n) && k == BackupName(n, o[n], skip) && b[k] == BackupEntry(xz, o[n], skip);
      assert StoredFrom(o, s, xz, skip, n, k, b[k]);
    }
  }

  lemma PrefixIsNotDir(k: Name)
    requires HasPrefix(k, Prefix())
    ensures k != BackupDir()
  {
  }

  lemma {:induction false} BackupsAreBackups(o: Archive, s: Archive, xz: Codec, skip: bool, names: seq<Name>)
    ensures forall k :: k in Backups(o, s, xz, skip, names) ==> IsBackup(k)
  {
    hide BackupName, BackupEntry, Differs, Prefix, HasPrefix;
    if names != [] {
      BackupsAreBackups(o, s, xz, skip, names[..|names| - 1]);
      var n := names[|names| - 1];
      if Differs(o, s, n) {
        DiffersIn(o, s, n);
        BackupNameIsBackup(n, o[n], skip);
      }
    }
  }

  lemma DiffersIn(o: Archive, s: Archive, n: Name)
    requires Differs(o, s, n)
    ensures n in o
  {
  }

  /** Taking the backups out leaves the patched archive. */
  lemma WithoutBackups(o: Archive, s: Archive, xz: Codec, skip: bool, ls: seq<Name>, rs: seq<Name>)
    requires WellNamed(s)
    ensures WithoutBackup(BackedUp(o, s, xz, skip, ls, rs)) == s
  {
    hide Backups, RmList, BackupDir, Prefix, RmListName, HasPrefix, NulFree, ValidUtf8;
    BackupsAreBackups(o, s, xz, skip, ls);
    RmListHasPrefix();
  }

  /** The entries a backed-up archive restores: exactly those that differ, as the original has them. */
  lemma RestoresWhatDiffers(o: Archive, s: Archive, xz: Codec, skip: bool, ls: seq<Name>, rs: seq<Name>, ks: seq<Name>)
    requires ValidCodec(xz) && WellNamed(s) && AllComeBack(o, s, xz, skip) && NoSharedNames(o, s, skip)
    requires Lists(ls, o.Keys) && Lists(ks, BackedUp(o, s, xz, skip, ls, rs).Keys)
    ensures Restores(BackedUp(o, s, xz, skip, ls, rs), xz, ks) == map n | n in o && Differs(o, s, n) :: o[n]
  {
    hide BackedUp, Restores, Differs, RestoredName, RestoredEntry, IsStored, AllComeBack, NoSharedNames, WellNamed;
    hide ValidCodec, BackupName, BackupEntry;
    var x := BackedUp(o, s, xz, skip, ls, rs);
    var r := Restores(x, xz, ks);
    forall n | n in r
      ensures n in o && Differs(o, s, n) && r[n] == o[n]
    {
      RestoresContents(x, xz, ks, n);
      var k :| k in ks && k in x && IsStored(k) && n == RestoredName(xz, k, x[k]) && r[n] == RestoredEntry(xz, k, x[k]);
      StoredHasSource(o, s, xz, skip, ls, rs, k);
      DiffersIn(o, s, n);
    }
    forall n | n in o && Differs(o, s, n)
      ensures n in r
    {
      var k := BackupName(n, o[n], skip);
      DifferingIsStored(o, s, xz, skip, ls, rs, n);
      StoredHasSource(o, s, xz, skip, ls, rs, k);
      SourceIsUnique(o, s, xz, skip, n, k);
      RestoresContents(x, xz, ks, n);
    }
  }

  /** A stored entry of a backed-up archive restores to the original's entry. */
  lemma StoredHasSource(o: Archive, s: Archive, xz: Codec, skip: bool, ls: seq<Name>, rs: seq<Name>, k: Name)
    requires ValidCodec(xz) && WellNamed(s) && (skip ==> AllComeBack(o, s, xz, skip))
    requires k in BackedUp(o, s, xz, skip, ls, rs) && IsStored(k)
    ensures
      var e := BackedUp(o, s, xz, skip, ls, rs)[k];
      var n := RestoredName(xz, k, e);
      StoredFrom(o, s, xz, skip, n, k, e) && RestoredEntry(xz, k, e) == o[n]
  {
    hide BackedUp, RestoredName, RestoredEntry, ValidCodec, BackupName, BackupEntry, WellNamed, Prefix, RmListName;
    hide MagiskName;
    BackupsInArchive(o, s, xz, skip, ls, rs, k);
    var e := BackedUp(o, s, xz, skip, ls, rs)[k];
    var n :| StoredFrom(o, s, xz, skip, n, k, e);
    StoredUnless(n, o[n], skip);
    Unpack(xz, n, o[n], skip);
  }

  lemma SourceIsUnique(o: Archive, s: Archive, xz: Codec, skip: bool, n: Name, k: Name)
    requires NoSharedNames(o, s, skip) && Differs(o, s, n) && k == BackupName(n, o[n], skip)
    ensures forall m, e :: StoredFrom(o, s, xz, skip, m, k, e) ==> m == n
  {
    hide NoSharedNames, BackupName, BackupEntry;
    forall m, e | StoredFrom(o, s, xz, skip, m, k, e)
      ensures m == n
    {
      BackupNameInjective(o, s, skip, n, m);
    }
  }

  lemma DifferingIsStored(o: Archive, s: Archive, xz: Codec, skip: bool, ls: seq<Name>, rs: seq<Name>, n: Name)
    requires WellNamed(s) && AllComeBack(o, s, xz, skip) && Lists(ls, o.Keys) && Differs(o, s, n)
    ensures BackupName(n, o[n], skip) in BackedUp(o, s, xz, skip, ls, rs) && IsStored(BackupName(n, o[n], skip))
  {
    hide BackedUp, BackupName, IsRegular, WellNamed, Prefix, RmListName, MagiskName, Less;
    var k := BackupName(n, o[n], skip);
    StoredUnless(n, o[n], skip);
    BackupsInArchive(o, s, xz, skip, ls, rs, k);
  }

  // The list of new names.

  function NewNames(o: Archive, names: seq<Name>): seq<Name> {
    if names == [] then []
    else if names[|names| - 1] !in o then NewNames(o, names[..|names| - 1]) + [names[|names| - 1]]
    else NewNames(o, names[..|names| - 1])
  }

  lemma {:induction false} NewNamesAre(o: Archive, names: seq<Name>, n: Name)
    ensures n in NewNames(o, names) <==> n in names && n !in o
  {
    if names != [] {
      NewNamesAre(o, names[..|names| - 1], n);
      assert names == names[..|names| - 1] + [names[|names| - 1]];
    }
  }

  lemma {:induction false} RmListIsUtf8(o: Archive, names: seq<Name>)
    requires forall n :: n in names ==> ValidUtf8(n)
    ensures ValidUtf8(RmList(o, names))
  {
    hide ValidUtf8;
    if names == [] {
      Utf8Empty();
    } else {
      var init, n := names[..|names| - 1], names[|names| - 1];
      RmListIsUtf8(o, init);
      SuffixFacts();
      Utf8Append(RmList(o, init), n);
      Utf8Append(RmList(o, init) + n, [0]);
    }
  }

  lemma Utf8Empty()
    ensures ValidUtf8([])
  {
  }

  /** Splitting at a separator. */
  lemma {:induction false} SplitAppend(a: Bytes, b: Bytes, sep: byte)
    requires sep !in a
    ensures Split(a + [sep] + b, sep) == [a] + Split(b, sep)
    decreases |a|
  {
    if a == [] {
      assert ([] + [sep] + b)[1..] == b;
    } else {
      SplitAppend(a[1..], b, sep);
      assert (a + [sep] + b)[1..] == a[1..] + [sep] + b;
      assert [a[0]] + a[1..] == a;
    }
  }

  /** The list of new names, front to back. */
  function Terminated(names: seq<Name>): Bytes {
    if names == [] then [] else names[0] + [0] + Terminated(names[1..])
  }

  lemma {:induction false} TerminatedAppend(names: seq<Name>, n: Name)
    ensures Terminated(names + [n]) == Terminated(names) + n + [0]
  {
    if names == [] {
      assert [] + [n] == [n] && [n][1..] == [];
      assert n + [0] + [] == [] + n + [0];
    } else {
      TerminatedAppend(names[1..], n);
      assert (names + [n])[1..] == names[1..] + [n];
      Assoc(names[0] + [0], Terminated(names[1..]), n);
      Assoc(names[0] + [0], Terminated(names[1..]) + n, [0]);
    }
  }

  lemma {:induction false} RmListIsTerminated(o: Archive, names: seq<Name>)
    ensures RmList(o, names) == Terminated(NewNames(o, names))
  {
    if names != [] {
      var init, n := names[..|names| - 1], names[|names| - 1];
      RmListIsTerminated(o, init);
      TerminatedAppend(NewNames(o, init), n);
    }
  }

  /** Reading the list gives the names back, empty ones excepted. */
  lemma {:induction false} SplitTerminated(names: seq<Name>)
    requires forall n :: n in names ==> NulFree(n)
    ensures NonEmpty(Split(Terminated(names), 0)) == NonEmpty(names)
  {
    if names == [] {
      var one: seq<Bytes> := [[]];
      assert Split([], 0) == one && one[1..] == [];
    } else {
      SplitTerminated(names[1..]);
      assert NulFree(names[0]);
      SplitAppend(names[0], Terminated(names[1..]), 0);
      var rest := Split(Terminated(names[1..]), 0);
      assert ([names[0]] + rest)[1..] == rest;
    }
  }

  lemma {:induction false} RemoveAllIs(entries: Archive, names: seq<Name>)
    ensures forall n :: n in RemoveAll(entries, names) <==> n in entries && forall t :: t in names ==> n != NormPath(t)
    ensures forall n :: n in RemoveAll(entries, names) ==> RemoveAll(entries, names)[n] == entries[n]
    decreases |names|
  {
    hide NormPath;
    if names != [] {
      RemoveAllIs(Removed(entries, names[0], false), names[1..]);
      assert names == [names[0]] + names[1..];
    }
  }

  lemma {:induction false} NonEmptyIs(names: seq<Name>)
    ensures forall n :: n in NonEmpty(names) <==> n in names && n != []
  {
    if names != [] {
      NonEmptyIs(names[1..]);
      assert names == [names[0]] + names[1..];
    }
  }

  lemma StoredList(o: Archive, s: Archive, xz: Codec, skip: bool, ls: seq<Name>, rs: seq<Name>)
    requires WellNamed(s) && AllComeBack(o, s, xz, skip) && Lists(rs, s.Keys)
    ensures StoredRmList(BackedUp(o, s, xz, skip, ls, rs)) == RmList(o, rs)
  {
    hide BackedUp, RmList, ValidUtf8, Prefix, RmListName, MagiskName, IsRegular, BackupName, BackupEntry, HasPrefix;
    hide Less;
    var k := Prefix() + RmListName();
    RmListHasPrefix();
    BackupsInArchive(o, s, xz, skip, ls, rs, k);
    RmListIsUtf8(o, rs);
    if RmList(o, rs) == [] && k in BackedUp(o, s, xz, skip, ls, rs) {
      var n :| StoredFrom(o, s, xz, skip, n, k, BackedUp(o, s, xz, skip, ls, rs)[k]);
      StoredUnless(n, o[n], skip);
      assert false;
    }
  }

  /** The names removed when the list is read back. */
  lemma ListedNames(o: Archive, s: Archive, rs: seq<Name>)
    requires WellNamed(s) && Lists(rs, s.Keys)
    ensures forall t :: t in NonEmpty(Split(RmList(o, rs), 0)) <==> t in s && t !in o && t != []
    ensures RmList(o, rs) == [] <==> forall n :: n in s ==> n in o
  {
    hide ValidUtf8, IsBackup, Less, Split;
    var list := NewNames(o, rs);
    RmListIsTerminated(o, rs);
    forall n
      ensures n in list <==> n in s && n !in o
    {
      NewNamesAre(o, rs, n);
    }
    SplitTerminated(list);
    NonEmptyIs(list);
    if list != [] {
      assert list[0] in list;
    }
  }

  /** Something distinguishes the two archives as far as `backup` looks. */
  ghost predicate Recorded(o: Archive, s: Archive) { exists n :: Differs(o, s, n) || (n in s && n !in o) }

  ghost function Differing(o: Archive, s: Archive): Archive { map n | n in o && Differs(o, s, n) :: o[n] }

  /** What restoring a backed-up archive gives, if no names get in the way of each other. */
  lemma RestoredIs(o: Archive, s: Archive, xz: Codec, skip: bool, ls: seq<Name>, rs: seq<Name>, ks: seq<Name>)
    requires ValidCodec(xz) && WellNamed(s) && AllComeBack(o, s, xz, skip) && NoSharedNames(o, s, skip)
    requires Lists(ls, o.Keys) && Lists(rs, s.Keys) && Lists(ks, BackedUp(o, s, xz, skip, ls, rs).Keys)
    ensures
      var out := Restored(BackedUp(o, s, xz, skip, ls, rs), xz, ks);
      if !Recorded(o, s) then out == map[]
      else
        && (forall n :: n in out <==>
             Differs(o, s, n) || (n in s && forall t :: t in s && t !in o && t != [] ==> n != NormPath(t)))
        && (forall n :: n in out ==> out[n] == if Differs(o, s, n) then o[n] else s[n])
  {
    hide BackedUp, Restores, StoredRmList, RmList, Split, NonEmpty, RemoveAll, AllComeBack, NoSharedNames;
    hide WellNamed, Lists, ValidCodec, NormPath, WithoutBackup;
    var x := BackedUp(o, s, xz, skip, ls, rs);
    RestoresWhatDiffers(o, s, xz, skip, ls, rs, ks);
    StoredList(o, s, xz, skip, ls, rs);
    WithoutBackups(o, s, xz, skip, ls, rs);
    ListedNames(o, s, rs);
    RemoveAllIs(s, NonEmpty(Split(RmList(o, rs), 0)));
    assert Restores(x, xz, ks) == Differing(o, s);
    NothingRecorded(o, s, RmList(o, rs));
  }

  lemma NothingRecorded(o: Archive, s: Archive, rm: Bytes)
    requires rm == [] <==> forall n :: n in s ==> n in o
    ensures Recorded(o, s) <==> !(rm == [] && Differing(o, s) == map[])
  {
    if rm == [] && Recorded(o, s) {
      var n :| Differs(o, s, n) || (n in s && n !in o);
      assert n in Differing(o, s);
    }
    if Differing(o, s) != map[] {
      var n :| n in Differing(o, s);
      assert Differs(o, s, n);
    }
    if rm != [] {
      var n :| n in s && n !in o;
      assert Recorded(o, s);
    }
  }

  /** `restore` undoes `backup`: the original's names and data come back, with all metadata of
      every entry that was stored. If nothing was recorded, the archive ends up empty instead. */
  lemma RestoreUndoesBackup(o: Archive, s: Archive, xz: Codec, skip: bool, ls: seq<Name>, rs: seq<Name>, ks: seq<Name>)
    requires ValidCodec(xz) && WellNamed(s) && Clean(o, s, xz, skip)
    requires Lists(ls, o.Keys) && Lists(rs, s.Keys) && Lists(ks, BackedUp(o, s, xz, skip, ls, rs).Keys)
    ensures
      var out := Restored(BackedUp(o, s, xz, skip, ls, rs), xz, ks);
      if !Recorded(o, s) then out == map[]
      else SameContents(out, o) && forall n :: Differs(o, s, n) ==> out[n] == o[n]
  {
    hide BackedUp, Restored, AllComeBack, NoSharedNames, WellNamed, Lists, ValidCodec, NormPath;
    RestoredIs(o, s, xz, skip, ls, rs, ks);
    var out := Restored(BackedUp(o, s, xz, skip, ls, rs), xz, ks);
    if Recorded(o, s) {
      forall n
        ensures n in out <==> n in o
      {
        assert n in s && n !in o ==> NormPath(n) == n;
        assert n in s && n in o ==> forall t :: t in s && t !in o && t != [] ==> n != NormPath(t);
      }
    }
  }

  // ---------------------------------------------------------------------------------------
  // ... and only then
  // ---------------------------------------------------------------------------------------

  lemma {:induction false} SplitIsFree(t: Bytes, sep: byte)
    ensures forall p :: p in Split(t, sep) ==> sep !in p
    ensures Split(t, sep) != []
  {
    if t != [] {
      SplitIsFree(t[1..], sep);
      var rest := Split(t[1..], sep);
      assert rest == [rest[0]] + rest[1..];
    }
  }

  lemma {:induction false} SplitJoin(parts: seq<Bytes>)
    requires parts != [] && forall p :: p in parts ==> SLASH !in p
    ensures Split(JoinPath(parts), SLASH) == parts
  {
    if |parts| == 1 {
      SplitWhole(parts[0], SLASH);
      assert parts == [parts[0]];
    } else {
      SplitJoin(parts[1..]);
      SplitAppend(parts[0], JoinPath(parts[1..]), SLASH);
      assert parts == [parts[0]] + parts[1..];
    }
  }

  lemma {:induction false} SplitWhole(t: Bytes, sep: byte)
    requires sep !in t
    ensures Split(t, sep) == [t]
  {
    if t != [] {
      SplitWhole(t[1..], sep);
      assert [t[0]] + t[1..] == t;
    }
  }

  lemma {:induction false} NonEmptyTwice(parts: seq<Bytes>)
    ensures NonEmpty(NonEmpty(parts)) == NonEmpty(parts)
  {
    if parts != [] {
      NonEmptyTwice(parts[1..]);
      var rest := NonEmpty(parts[1..]);
      assert ([parts[0]] + rest)[1..] == rest;
    }
  }

  /** A normalised path is normalised. */
  lemma NormPathTwice(path: Name)
    ensures NormPath(NormPath(path)) == NormPath(path)
  {
    hide Split, NonEmpty;
    var parts := NonEmpty(Split(path, SLASH));
    SplitIsFree(path, SLASH);
    NonEmptyIs(Split(path, SLASH));
    NonEmptyTwice(Split(path, SLASH));
    if parts == [] {
      NormEmpty();
    } else {
      SplitJoin(parts);
    }
  }

  lemma NormEmpty()
    ensures NormPath([]) == []
  {
    var one: seq<Bytes> := [[]];
    assert Split([], SLASH) == one && one[1..] == [];
  }

  /** An entry that differs comes back only from a stored one. */
  lemma BackMeansRestored(
    o: Archive, s: Archive, xz: Codec, skip: bool, ls: seq<Name>, rs: seq<Name>, ks: seq<Name>, n: Name)
    returns (k: Name)
    requires WellNamed(s) && Differs(o, s, n)
    requires SameContents(Restored(BackedUp(o, s, xz, skip, ls, rs), xz, ks), o)
    ensures var x := BackedUp(o, s, xz, skip, ls, rs);
            k in x && IsStored(k) && n == RestoredName(xz, k, x[k])
  {
    hide BackedUp, Restores, StoredRmList, Split, NonEmpty, RemoveAll, WellNamed, RestoredName;
    hide RestoredEntry, IsStored, WithoutBackup, BackupName, BackupEntry;
    var x := BackedUp(o, s, xz, skip, ls, rs);
    WithoutBackups(o, s, xz, skip, ls, rs);
    RemoveAllIs(s, NonEmpty(Split(StoredRmList(x), 0)));
    RestoresContents(x, xz, ks, n);
    assert n in Restores(x, xz, ks);
    k :| k in ks && k in x && IsStored(k) && n == RestoredName(xz, k, x[k]);
  }

  // With compression

  lemma BackMeansStored(o: Archive, s: Archive, xz: Codec, ls: seq<Name>, rs: seq<Name>, ks: seq<Name>, n: Name)
    requires ValidCodec(xz) && WellNamed(s) && Differs(o, s, n)
    requires SameContents(Restored(BackedUp(o, s, xz, false, ls, rs), xz, ks), o)
    ensures
      var x, k := BackedUp(o, s, xz, false, ls, rs), BackupName(n, o[n], false);
      IsStored(k) && k in x && x[k] == BackupEntry(xz, o[n], false)
  {
    hide BackedUp, Restored, WellNamed, ValidCodec, RestoredName, RestoredEntry, IsStored, BackupName, BackupEntry;
    hide SameContents;
    var k := BackMeansRestored(o, s, xz, false, ls, rs, ks, n);
    StoredHasSource(o, s, xz, false, ls, rs, k);
  }

  lemma SameMode(xz: Codec, e: Entry)
    ensures IsRegular(BackupEntry(xz, e, false)) == IsRegular(e)
  {
  }

  lemma SharedName(n: Name, e: Entry, m: Name, f: Entry)
    requires IsRegular(e) && !IsRegular(f) && m == n + XzSuffix()
    ensures BackupName(n, e, false) == BackupName(m, f, false)
  {
    hide Prefix, XzSuffix, IsRegular;
    assert Prefix() + n + XzSuffix() == Prefix() + (n + XzSuffix()) + [];
  }

  lemma PackedNamesMustNotClash(o: Archive, s: Archive, xz: Codec, ls: seq<Name>, rs: seq<Name>, ks: seq<Name>)
    requires ValidCodec(xz) && WellNamed(s)
    requires SameContents(Restored(BackedUp(o, s, xz, false, ls, rs), xz, ks), o)
    ensures AllComeBack(o, s, xz, false) && NoSharedNames(o, s, false)
  {
    hide BackedUp, Restored, WellNamed, ValidCodec, IsStored, BackupName, BackupEntry, IsRegular, SameContents;
    hide IsSpecial, XzSuffix;
    forall n | Differs(o, s, n)
      ensures ComesBack(xz, n, o[n], false)
    {
      BackMeansStored(o, s, xz, ls, rs, ks, n);
      StoredUnless(n, o[n], false);
    }
    forall n | Differs(o, s, n) && IsRegular(o[n])
      ensures !(Differs(o, s, n + XzSuffix()) && !IsRegular(o[n + XzSuffix()]))
    {
      var m := n + XzSuffix();
      if Differs(o, s, m) && !IsRegular(o[m]) {
        BackMeansStored(o, s, xz, ls, rs, ks, n);
        BackMeansStored(o, s, xz, ls, rs, ks, m);
        SharedName(n, o[n], m, o[m]);
        SameMode(xz, o[n]);
        SameMode(xz, o[m]);
        assert false;
      }
    }
  }

  // Without compression

  /** An entry that does not come back could only be replaced by a longer one that does not either. */
  lemma LongerOne(o: Archive, s: Archive, xz: Codec, ls: seq<Name>, rs: seq<Name>, ks: seq<Name>, n: Name)
    requires WellNamed(s) && Differs(o, s, n) && !ComesBack(xz, n, o[n], true)
    requires SameContents(Restored(BackedUp(o, s, xz, true, ls, rs), xz, ks), o)
    ensures var m := n + XzSuffix(); Differs(o, s, m) && !ComesBack(xz, m, o[m], true)
  {
    hide BackedUp, Restored, WellNamed, Differs, SameContents, IsSpecial, Prefix, XzSuffix;
    var k := BackMeansRestored(o, s, xz, true, ls, rs, ks, n);
    var e := BackedUp(o, s, xz, true, ls, rs)[k];
    RmListStored();
    BackupsInArchive(o, s, xz, true, ls, rs, k);
    var m :| StoredFrom(o, s, xz, true, m, k, e);
    DiffersIn(o, s, m);
    StoredUnless(m, o[m], true);
    assert k == Prefix() + m + [] == Prefix() + m;
    assert k[|Prefix()|..] == m;
    if |m| >= |XzSuffix()| {
      SuffixBehindPrefix(m);
      assert k[|Prefix()|..|k| - |XzSuffix()|] == m[..|m| - |XzSuffix()|];
    }
    assert LooksPacked(xz, m, o[m]) ==> m == m[..|m| - |XzSuffix()|] + XzSuffix();
  }

  lemma RmListStored()
    ensures !IsStored(Prefix() + RmListName())
  {
  }

  function LongestOf(names: seq<Name>): (max: nat)
    ensures forall n :: n in names ==> |n| <= max
  {
    if names == [] then 0
    else
      var max, last := LongestOf(names[..|names| - 1]), names[|names| - 1];
      assert names == names[..|names| - 1] + [last];
      if max < |last| then |last| else max
  }

  lemma {:induction false} PlainComesBack(
    o: Archive, s: Archive, xz: Codec, ls: seq<Name>, rs: seq<Name>, ks: seq<Name>, n: Name)
    requires WellNamed(s) && Lists(ls, o.Keys) && Differs(o, s, n)
    requires SameContents(Restored(BackedUp(o, s, xz, true, ls, rs), xz, ks), o)
    ensures ComesBack(xz, n, o[n], true)
    decreases LongestOf(ls) - |n|
  {
    hide BackedUp, Restored, WellNamed, SameContents, ComesBack, LongestOf, Less;
    if !ComesBack(xz, n, o[n], true) {
      LongerOne(o, s, xz, ls, rs, ks, n);
      var m := n + XzSuffix();
      assert m in ls;
      PlainComesBack(o, s, xz, ls, rs, ks, m);
      assert false;
    }
  }

  lemma NamesMustNotClash(
    o: Archive, s: Archive, xz: Codec, skip: bool, ls: seq<Name>, rs: seq<Name>, ks: seq<Name>)
    requires ValidCodec(xz) && WellNamed(s) && Lists(ls, o.Keys)
    requires SameContents(Restored(BackedUp(o, s, xz, skip, ls, rs), xz, ks), o)
    ensures AllComeBack(o, s, xz, skip) && NoSharedNames(o, s, skip)
  {
    hide BackedUp, Restored, WellNamed, ValidCodec, SameContents, ComesBack, Lists, IsRegular, XzSuffix;
    if skip {
      forall n | Differs(o, s, n)
        ensures ComesBack(xz, n, o[n], true)
      {
        PlainComesBack(o, s, xz, ls, rs, ks, n);
      }
    } else {
      PackedNamesMustNotClash(o, s, xz, ls, rs, ks);
    }
  }

  lemma NamesMustBeNormal(o: Archive, s: Archive, out: Archive)
    requires out.Keys == o.Keys
    requires forall n :: n in out <==>
               Differs(o, s, n) || (n in s && forall t :: t in s && t !in o && t != [] ==> n != NormPath(t))
    ensures RemovableNames(o, s)
  {
    hide NormPath;
    forall n | n in s && n !in o
      ensures NormPath(n) == n
    {
      if NormPath(n) != n {
        forall t | t in s && t !in o && t != []
          ensures n != NormPath(t)
        {
          NormPathTwice(t);
        }
        assert false;
      }
    }
    var e: Name := [];
    if e in s && e !in o {
      assert false;
    }
  }

  /** Exactly when restoring gives the original's names and data back. */
  lemma RestoreIsExact(o: Archive, s: Archive, xz: Codec, skip: bool, ls: seq<Name>, rs: seq<Name>, ks: seq<Name>)
    requires ValidCodec(xz) && WellNamed(s)
    requires Lists(ls, o.Keys) && Lists(rs, s.Keys) && Lists(ks, BackedUp(o, s, xz, skip, ls, rs).Keys)
    ensures SameContents(Restored(BackedUp(o, s, xz, skip, ls, rs), xz, ks), o) <==>
            Clean(o, s, xz, skip) && (Recorded(o, s) || o == map[])
  {
    hide BackedUp, Restored, WellNamed, ValidCodec, Lists, AllComeBack, NoSharedNames, NormPath;
    var out := Restored(BackedUp(o, s, xz, skip, ls, rs), xz, ks);
    if Clean(o, s, xz, skip) {
      RestoreUndoesBackup(o, s, xz, skip, ls, rs, ks);
    }
    if SameContents(out, o) {
      NamesMustNotClash(o, s, xz, skip, ls, rs, ks);
      RestoredIs(o, s, xz, skip, ls, rs, ks);
      if Recorded(o, s) {
        NamesMustBeNormal(o, s, out);
      }
    }
  }

  /** Backing up an archive that was not changed and restoring it empties it. */
  lemma UnchangedIsLost(o: Archive, xz: Codec, skip: bool)
    requires ValidCodec(xz) && WellNamed(o)
    ensures var ks := Sorted(o.Keys);
            var x := BackedUp(o, o, xz, skip, ks, ks);
            Restored(x, xz, Sorted(x.Keys)) == map[]
  {
    hide Sorted, Lists, BackedUp, Restored, ValidCodec, WellNamed, ComesBack, NormPath, IsRegular, XzSuffix;
    var ks := Sorted(o.Keys);
    assert forall n :: !Differs(o, o, n);
    assert !Recorded(o, o) && Clean(o, o, xz, skip);
    RestoreUndoesBackup(o, o, xz, skip, ks, ks, Sorted(BackedUp(o, o, xz, skip, ks, ks).Keys));
  }

  /** The two commands one after the other, on any two archives as they come from files. */
  method BackupThenRestore(entries: Archive, origin: Archive, skip: bool, xz: Codec) returns (out: Archive)
    requires ValidCodec(xz) && forall n :: n in entries ==> NulFree(n) && ValidUtf8(n)
    ensures
      var o, s := WithoutBackup(origin), WithoutBackup(entries);
      SameContents(out, o) <==> Clean(o, s, xz, skip) && (Recorded(o, s) || o == map[])
  {
    hide Sorted, Lists, BackedUp, Restored, Clean, Recorded, ValidCodec, NulFree, ValidUtf8, IsBackup, SameContents;
    var stored := Backup(entries, origin, skip, xz);
    out := Restore(stored, xz);
    ghost var o, s := WithoutBackup(origin), WithoutBackup(entries);
    RestoreIsExact(o, s, xz, skip, Sorted(o.Keys), Sorted(s.Keys), Sorted(stored.Keys));
  }
}
