/** fs/dir.c: a directory is a log of records, each naming an inode or being free
    for reuse; the log stands for a finite map from names to inode numbers. */
module FsDirLog {
  import opened FsCodec

  const ENOENT: int := 2
  const EEXIST: int := 17
  const INVALID_INODE_NR: int := -1

  const DOT: Bytes := [46]
  const DOTDOT: Bytes := [46, 46]

  /** struct dirent with its name, which ends in a zero byte on the device. A record
      with a negative inode number is free. */
  datatype Dirent = Dirent(inodeNr: int, name: Bytes)

  predicate Used(e: Dirent) { e.inodeNr >= 0 }

  /** What the two 32-bit fields and a C string can hold; the size of the record is an int. */
  predicate EntryOk(e: Dirent) {
    -1 <= e.inodeNr < 0x8000_0000 && |e.name| + 9 < 0x8000_0000 && 0 !in e.name
  }

  predicate LogOk(es: seq<Dirent>) {
    forall k :: 0 <= k < |es| ==> EntryOk(es[k])
  }

  // ---- records as bytes ----

  function EncodeEntry(e: Dirent): (b: Bytes)
    requires EntryOk(e)
    ensures |b| == 8 + |e.name| + 1
  {
    Put32(|e.name| + 1) + Put32(e.inodeNr) + e.name + [0]
  }

  function EncodeLog(es: seq<Dirent>): Bytes
    requires LogOk(es)
  {
    if es == [] then [] else EncodeEntry(es[0]) + EncodeLog(es[1..])
  }

  /** Where record k begins. */
  function OffsetOf(es: seq<Dirent>, k: nat): nat
    requires LogOk(es) && k <= |es|
  {
    |EncodeLog(es[..k])|
  }

  /** The bytes of a C string before its terminating zero. */
  function CString(b: Bytes): Bytes {
    if b == [] || b[0] == 0 then [] else [b[0]] + CString(b[1..])
  }

  lemma {:induction false} CStringOf(name: Bytes)
    requires 0 !in name
    ensures CString(name + [0]) == name
  {
    if name != [] {
      assert (name + [0])[1..] == name[1..] + [0];
      CStringOf(name[1..]);
    }
  }

  lemma {:induction false} EncodeLogSplit(es: seq<Dirent>, k: nat)
    requires LogOk(es) && k <= |es|
    ensures EncodeLog(es) == EncodeLog(es[..k]) + EncodeLog(es[k..])
  {
    hide EncodeEntry;
    if k == 0 {
      assert es[..0] == [] && es[0..] == es;
    } else {
      EncodeLogSplit(es[1..], k - 1);
      assert es[1..][..k - 1] == es[..k][1..] && es[1..][k - 1..] == es[k..];
    }
  }

  /** Record k stands at its offset, and the next one follows it. */
  lemma EntryAt(es: seq<Dirent>, k: nat)
    requires LogOk(es) && k < |es|
    ensures OffsetOf(es, k + 1) == OffsetOf(es, k) + |EncodeEntry(es[k])| <= |EncodeLog(es)|
    ensures EncodeLog(es)[OffsetOf(es, k)..OffsetOf(es, k + 1)] == EncodeEntry(es[k])
    ensures EncodeLog(es)[OffsetOf(es, k + 1)..] == EncodeLog(es[k + 1..])
  {
    hide EncodeEntry, EncodeLog;
    EncodeLogSplit(es, k);
    EncodeLogSplit(es[..k + 1], k);
    assert es[..k + 1][..k] == es[..k] && es[..k + 1][k..] == [es[k]] && es[k..][0] == es[k];
    EncodeOne(es[k]);
    EncodeFirst(es[k..]);
    assert es[k..][1..] == es[k + 1..];
  }

  lemma EncodeOne(e: Dirent)
    requires EntryOk(e)
    ensures LogOk([e]) && EncodeLog([e]) == EncodeEntry(e)
  {
    hide EncodeEntry;
    assert [e][1..] == [];
  }

  lemma EncodeFirst(es: seq<Dirent>)
    requires LogOk(es) && es != []
    ensures EncodeLog(es) == EncodeEntry(es[0]) + EncodeLog(es[1..])
  {
    hide EncodeEntry;
  }

  lemma OffsetEnd(es: seq<Dirent>)
    requires LogOk(es)
    ensures OffsetOf(es, |es|) == |EncodeLog(es)| && OffsetOf(es, 0) == 0
  {
    assert es[..|es|] == es && es[..0] == [];
  }

  /** The two fields and the name of an encoded record. */
  lemma EntryFields(e: Dirent)
    requires EntryOk(e)
    ensures GetInt(EncodeEntry(e), 0) == |e.name| + 1 && GetInt(EncodeEntry(e), 1) == e.inodeNr
    ensures EncodeEntry(e)[8..] == e.name + [0]
  {
    var b := EncodeEntry(e);
    RoundTrip32(|e.name| + 1);
    RoundTrip32(e.inodeNr);
    hide Put32, Get32;
    assert b[0..4] == Put32(|e.name| + 1) && b[4..8] == Put32(e.inodeNr);
  }

  /** The first record of a log, read from its bytes. */
  lemma FirstRecord(es: seq<Dirent>)
    requires LogOk(es) && es != []
    ensures var b, len := EncodeLog(es), |es[0].name| + 1;
            && 8 + len <= |b| && GetInt(b, 0) == len && GetInt(b, 1) == es[0].inodeNr
            && b[8..8 + len] == es[0].name + [0] && b[8 + len..] == EncodeLog(es[1..])
  {
    EntryFields(es[0]);
    hide EncodeEntry;
    FieldsOfPrefix(EncodeEntry(es[0]), EncodeLog(es[1..]));
  }

  lemma FieldsOfPrefix(e: Bytes, rest: Bytes)
    requires 8 <= |e|
    ensures GetInt(e + rest, 0) == GetInt(e, 0) && GetInt(e + rest, 1) == GetInt(e, 1)
    ensures (e + rest)[8..|e|] == e[8..] && (e + rest)[|e|..] == rest
  {
    hide Get32;
    assert (e + rest)[0..4] == e[0..4] && (e + rest)[4..8] == e[4..8];
  }

  /** Decoding undoes encoding: two logs with the same bytes are the same log. */
  lemma {:induction false} EncodeLogInjective(es: seq<Dirent>, fs: seq<Dirent>)
    requires LogOk(es) && LogOk(fs) && EncodeLog(es) == EncodeLog(fs)
    ensures es == fs
  {
    hide EncodeEntry, GetInt;
    if es != [] && fs != [] {
      FirstRecord(es);
      FirstRecord(fs);
      NameInjective(es[0].name, fs[0].name);
      EncodeLogInjective(es[1..], fs[1..]);
      assert es == [es[0]] + es[1..] && fs == [fs[0]] + fs[1..];
    }
  }

  /** A log followed by a part of one more record is no log. */
  lemma {:induction false} CutIsNoLog(es: seq<Dirent>, e: Dirent, n: nat, fs: seq<Dirent>)
    requires LogOk(es) && EntryOk(e) && 0 < n < |EncodeEntry(e)| && LogOk(fs)
    ensures EncodeLog(fs) != EncodeLog(es) + EncodeEntry(e)[..n]
  {
    hide EncodeEntry, GetInt;
    var cut := EncodeEntry(e)[..n];
    if EncodeLog(fs) == EncodeLog(es) + cut {
      FirstRecord(fs);
      if es == [] {
        EntryFields(e);
        assert EncodeLog(fs) == cut;
        assert cut + EncodeEntry(e)[n..] == EncodeEntry(e);
        FieldsOfPrefix(cut, EncodeEntry(e)[n..]);
      } else {
        var rest := EncodeLog(es[1..]) + cut;
        assert EncodeLog(fs) == EncodeEntry(es[0]) + rest;
        EntryFields(es[0]);
        FieldsOfPrefix(EncodeEntry(es[0]), rest);
        NameInjective(es[0].name, fs[0].name);
        CutIsNoLog(es[1..], e, n, fs[1..]);
      }
    }
  }

  lemma NameInjective(a: Bytes, b: Bytes)
    requires a + [0] == b + [0]
    ensures a == b
  {
    assert a == (a + [0])[..|a|] && b == (b + [0])[..|b|];
  }

  /** Replacing a record by one of the same length, in place. */
  lemma EncodeReplace(es: seq<Dirent>, k: nat, e: Dirent)
    requires LogOk(es) && k < |es| && EntryOk(e) && |e.name| == |es[k].name|
    ensures LogOk(es[k := e])
    ensures OffsetOf(es, k) + |EncodeEntry(e)| == OffsetOf(es, k + 1) <= |EncodeLog(es)|
    ensures EncodeLog(es[k := e]) == EncodeLog(es)[..OffsetOf(es, k)] + EncodeEntry(e) +
              EncodeLog(es)[OffsetOf(es, k + 1)..]
  {
    var fs := es[k := e];
    EntryAt(es, k);
    EntryAt(fs, k);
    EncodeLogSplit(es, k);
    EncodeLogSplit(fs, k);
    hide EncodeEntry;
    assert fs[..k] == es[..k] && fs[k + 1..] == es[k + 1..];
    hide EncodeLog, OffsetOf;
    assert fs[k] == e;
  }

  lemma EncodeAppend(es: seq<Dirent>, e: Dirent)
    requires LogOk(es) && EntryOk(e)
    ensures LogOk(es + [e]) && EncodeLog(es + [e]) == EncodeLog(es) + EncodeEntry(e)
  {
    hide EncodeEntry;
    EncodeLogSplit(es + [e], |es|);
    assert (es + [e])[..|es|] == es && (es + [e])[|es|..] == [e] && [e][1..] == [];
  }

  // ---- what a log means ----

  /** The first record in use under a name; the length of the log if there is none. */
  function FindUsed(es: seq<Dirent>, name: Bytes): (k: nat)
    ensures k <= |es| && (k < |es| ==> Used(es[k]) && es[k].name == name)
    ensures forall j :: 0 <= j < k ==> !(Used(es[j]) && es[j].name == name)
  {
    if es == [] then 0
    else if Used(es[0]) && es[0].name == name then 0
    else 1 + FindUsed(es[1..], name)
  }

  /** The first free record that a name of this length fits exactly. */
  function FindFree(es: seq<Dirent>, len: nat): (k: nat)
    ensures k <= |es| && (k < |es| ==> !Used(es[k]) && |es[k].name| == len)
    ensures forall j :: 0 <= j < k ==> Used(es[j]) || |es[j].name| != len
  {
    if es == [] then 0
    else if !Used(es[0]) && |es[0].name| == len then 0
    else 1 + FindFree(es[1..], len)
  }

  /** No name is in use twice. */
  predicate Unique(es: seq<Dirent>) {
    forall i, j :: 0 <= i < j < |es| && Used(es[i]) && Used(es[j]) ==> es[i].name != es[j].name
  }

  /** The map a log stands for. */
  ghost function Names(es: seq<Dirent>): map<Bytes, int>
    requires Unique(es)
  {
    map k | 0 <= k < |es| && Used(es[k]) :: es[k].name := es[k].inodeNr
  }

  /** The log after adding a record, as testfs_add_dirent does when it does not find
      the name: at the first free record that fits, else at the end. */
  function Add(es: seq<Dirent>, e: Dirent): seq<Dirent> {
    var k := FindFree(es, |e.name|);
    if k < |es| then es[k := e] else es + [e]
  }

  /** The log after freeing the record of a name. */
  function Remove(es: seq<Dirent>, name: Bytes): seq<Dirent> {
    var k := FindUsed(es, name);
    if k < |es| then es[k := es[k].(inodeNr := INVALID_INODE_NR)] else es
  }

  /** A record for this name can be put in place of record k. */
  predicate Reusable(es: seq<Dirent>, k: nat, len: nat) {
    k < |es| && !Used(es[k]) && |es[k].name| == len
  }

  /** The log keeps its length and all other records where a free one of the same length can
      be used again, and the first such one is; only otherwise it grows. */
  lemma AddReuses(es: seq<Dirent>, e: Dirent)
    ensures forall k: nat :: Reusable(es, k, |e.name|) && (forall j: nat :: j < k ==> !Reusable(es, j, |e.name|)) ==>
              Add(es, e) == es[k := e]
    ensures (forall k: nat :: !Reusable(es, k, |e.name|)) ==> Add(es, e) == es + [e]
  {
    var k := FindFree(es, |e.name|);
    assert k < |es| ==> Reusable(es, k, |e.name|);
  }

  /** Removing frees the first record in use under the name, and no other. */
  lemma RemoveFrees(es: seq<Dirent>, name: Bytes)
    ensures forall k: nat :: k < |es| && Used(es[k]) && es[k].name == name &&
                             (forall j: nat :: j < k ==> !(Used(es[j]) && es[j].name == name)) ==>
              Remove(es, name) == es[k := Dirent(INVALID_INODE_NR, name)]
    ensures (forall k: nat :: k < |es| ==> !(Used(es[k]) && es[k].name == name)) ==> Remove(es, name) == es
  {
    var k := FindUsed(es, name);
  }

  /** testfs_add_dirent reports -EEXIST only for a name that it meets before the first
      free record that fits. */
  predicate AddMeets(es: seq<Dirent>, name: Bytes) {
    FindUsed(es, name) < FindFree(es, |name|)
  }

  lemma NamesAt(es: seq<Dirent>, k: nat)
    requires Unique(es) && k < |es| && Used(es[k])
    ensures es[k].name in Names(es) && Names(es)[es[k].name] == es[k].inodeNr
  {}

  lemma NamesOf(es: seq<Dirent>, name: Bytes) returns (k: nat)
    requires Unique(es) && name in Names(es)
    ensures k < |es| && Used(es[k]) && es[k].name == name && Names(es)[name] == es[k].inodeNr
  {
    k :| k < |es| && Used(es[k]) && es[k].name == name;
  }

  /** Looking a name up gives what the map gives. */
  lemma LookupIsMap(es: seq<Dirent>, name: Bytes)
    requires Unique(es)
    ensures FindUsed(es, name) < |es| <==> name in Names(es)
    ensures name in Names(es) ==> Names(es)[name] == es[FindUsed(es, name)].inodeNr
  {
    hide Names;
    if FindUsed(es, name) < |es| { NamesAt(es, FindUsed(es, name)); }
    if name in Names(es) { var k := NamesOf(es, name); }
  }

  /** Adding a name that is not in use extends the map by it. */
  lemma AddIsUpdate(es: seq<Dirent>, e: Dirent)
    requires Unique(es) && Used(e) && e.name !in Names(es)
    ensures Unique(Add(es, e)) && Names(Add(es, e)) == Names(es)[e.name := e.inodeNr]
  {
    hide Names;
    var k, fs := FindFree(es, |e.name|), Add(es, e);
    forall j | 0 <= j < |es| && Used(es[j]) ensures es[j].name != e.name { NamesAt(es, j); }
    assert fs[k] == e && Unique(fs);
    NamesAt(fs, k);
    forall x | x in Names(fs)
      ensures x in Names(es)[e.name := e.inodeNr] && Names(fs)[x] == Names(es)[e.name := e.inodeNr][x]
    {
      var j := NamesOf(fs, x);
      if j != k { NamesAt(es, j); }
    }
    forall x | x in Names(es) ensures x in Names(fs) {
      var j := NamesOf(es, x);
      NamesAt(fs, j);
    }
  }

  /** Freeing the record of a name removes it from the map. */
  lemma RemoveIsErase(es: seq<Dirent>, name: Bytes)
    requires Unique(es)
    ensures Unique(Remove(es, name)) && Names(Remove(es, name)) == Names(es) - {name}
  {
    hide Names;
    var k, fs := FindUsed(es, name), Remove(es, name);
    forall x | x in Names(fs) ensures x in Names(es) - {name} && Names(fs)[x] == Names(es)[x] {
      var j := NamesOf(fs, x);
      NamesAt(es, j);
    }
    forall x | x in Names(es) - {name} ensures x in Names(fs) {
      var j := NamesOf(es, x);
      NamesAt(fs, j);
    }
  }

  /** The log that testfs_add_dirent leaves. */
  function AddResult(es: seq<Dirent>, e: Dirent): seq<Dirent> {
    if AddMeets(es, e.name) then es else Add(es, e)
  }

  /** Names stay unique exactly if the name is not in use or is met in time; that the
      caller looks the name up first makes it so. */
  lemma AddUniqueIff(es: seq<Dirent>, e: Dirent)
    requires Unique(es) && Used(e)
    ensures Unique(AddResult(es, e)) <==> e.name !in Names(es) || AddMeets(es, e.name)
  {
    LookupIsMap(es, e.name);
    hide Names;
    if e.name !in Names(es) {
      if !AddMeets(es, e.name) { AddIsUpdate(es, e); }
    } else if !AddMeets(es, e.name) {
      var k, j, fs := FindFree(es, |e.name|), FindUsed(es, e.name), Add(es, e);
      assert fs[k] == e && fs[j] == es[j] && k < j;
    }
  }

  /** A log on which adding a name that is in use makes it appear twice. */
  lemma AddTwice(name: Bytes)
    requires name != []
    ensures var es := [Dirent(INVALID_INODE_NR, name), Dirent(1, name)];
            Unique(es) && name in Names(es) && !Unique(AddResult(es, Dirent(2, name)))
  {
    var es := [Dirent(INVALID_INODE_NR, name), Dirent(1, name)];
    NamesAt(es, 1);
    assert FindFree(es, |name|) == 0;
    var fs := Add(es, Dirent(2, name));
    assert fs[0] == Dirent(2, name) && fs[1] == Dirent(1, name);
  }
}
