/** A directory as the bytes of its file: 20-byte entries that may straddle sectors, and the
    finite map from names to header sectors they stand for (Project2/src/filesys/directory.c). */
module Directory {
  import opened Disk
  import opened Bitmap
  import opened Sequences

  const ENTRY_SIZE: int := 20
  const NAME_MAX: int := 14

  /** A C string without its terminator. */
  type Name = n: seq<Byte> | forall i | 0 <= i < |n| :: n[i] != 0 witness []

  type Entry = e: seq<Byte> | |e| == 20 witness seq(20, _ => 0)

  function CString(s: seq<Byte>): (n: Name)
    ensures |n| <= |s| && n == s[..|n|]
    ensures |n| < |s| ==> s[|n|] == 0
  {
    if s == [] || s[0] == 0 then [] else [s[0]] + CString(s[1..])
  }

  lemma {:induction false} CStringIs(s: seq<Byte>, n: Name)
    requires |n| < |s| && n == s[..|n|] && s[|n|] == 0
    ensures CString(s) == n
  {
    if n != [] {
      assert n[0] == s[0];
      assert n[1..] == s[1..][..|n| - 1];
      CStringIs(s[1..], n[1..]);
    }
  }

  // ----- entries

  predicate InUse(e: Entry) { e[19] != 0 }

  function EntrySector(e: Entry): nat { WordAt(e, 0) }

  function EntryName(e: Entry): Name { CString(e[4..19]) }

  predicate ValidName(name: Name) { 1 <= |name| <= NAME_MAX }

  /** The entry dir_add writes over whatever its entry buffer held before. */
  function NewEntry(stale: Entry, name: Name, sector: nat): Entry
    requires ValidName(name)
  {
    Word(sector) + name + [0] + stale[5 + |name|..19] + [1]
  }

  function Erased(e: Entry): Entry { e[..19] + [0] }

  lemma NewEntryFields(stale: Entry, name: Name, sector: nat)
    requires ValidName(name) && sector < 0x1_0000_0000
    ensures var e := NewEntry(stale, name, sector);
            InUse(e) && EntryName(e) == name && EntrySector(e) == sector
  {
    var e := NewEntry(stale, name, sector);
    var rest: seq<Byte> := name + [0] + stale[5 + |name|..19] + [1];
    assert e == [] + Word(sector) + rest;
    WordRoundTrip(sector, [], rest);
    assert e[4..19] == name + [0] + stale[5 + |name|..19];
    assert e[4..19][..|name|] == name;
    CStringIs(e[4..19], name);
  }

  lemma ErasedFields(e: Entry)
    ensures !InUse(Erased(e))
  {
  }

  // ----- slots

  function Slots(c: seq<Byte>): nat { |c| / 20 }

  /** The whole entries a directory's bytes hold. */
  function Entries(c: seq<Byte>): (es: seq<Entry>)
    ensures |es| == Slots(c)
    ensures forall i | 0 <= i < |es| :: es[i] == c[20 * i..20 * i + 20]
  {
    seq(Slots(c), i requires 0 <= i < Slots(c) => c[20 * i..20 * i + 20])
  }

  /** The bytes after an entry was written at slot i, cut off at the end of file. */
  function PutSlot(c: seq<Byte>, i: nat, e: Entry): (r: seq<Byte>)
    requires i <= Slots(c)
    ensures |r| == |c|
  {
    Splice(c, 20 * i, e[..if i < Slots(c) then 20 else |c| % 20])
  }

  lemma PutSlotEntries(c: seq<Byte>, i: nat, e: Entry)
    requires i <= Slots(c)
    ensures Entries(PutSlot(c, i, e)) == if i < Slots(c) then Entries(c)[i := e] else Entries(c)
  {
    var r := PutSlot(c, i, e);
    forall j | 0 <= j < Slots(c) ensures Entries(r)[j] == if j == i then e else Entries(c)[j] {
      assert r[20 * j..20 * j + 20] == if j == i then e else c[20 * j..20 * j + 20];
    }
  }

  predicate Holds(e: Entry, name: Name) { InUse(e) && EntryName(e) == name }

  /** First entry in use under `name`. */
  function FindName(es: seq<Entry>, name: Name): (r: Option<nat>)
    ensures r.Some? ==> r.value < |es| && Holds(es[r.value], name) && forall j | 0 <= j < r.value :: !Holds(es[j], name)
    ensures r.None? ==> forall j | 0 <= j < |es| :: !Holds(es[j], name)
  {
    if es == [] then None
    else if Holds(es[0], name) then Some(0)
    else
      var r := FindName(es[1..], name);
      if r.Some? then Some(r.value + 1) else None
  }

  /** First free entry, else the number of entries. */
  function FindFree(es: seq<Entry>): (k: nat)
    ensures k <= |es| && (k < |es| ==> !InUse(es[k]))
    ensures forall j | 0 <= j < k :: InUse(es[j])
  {
    if es == [] || !InUse(es[0]) then 0 else 1 + FindFree(es[1..])
  }

  // ----- the map

  ghost predicate UniqueNames(es: seq<Entry>)
  {
    forall i, j | 0 <= i < j < |es| && InUse(es[i]) && InUse(es[j]) :: EntryName(es[i]) != EntryName(es[j])
  }

  /** m binds the name of every entry in use to its sector, and nothing else. */
  ghost predicate IsMap(es: seq<Entry>, m: map<Name, nat>)
  {
    && (forall i | 0 <= i < |es| && InUse(es[i]) :: EntryName(es[i]) in m && m[EntryName(es[i])] == EntrySector(es[i]))
    && forall name | name in m :: exists i :: 0 <= i < |es| && Holds(es[i], name)
  }

  /** The finite map from names to header sectors. */
  ghost function NameMap(es: seq<Entry>): (m: map<Name, nat>)
    requires UniqueNames(es)
    ensures IsMap(es, m)
  {
    if es == [] then map[]
    else
      var last := es[|es| - 1];
      var m := NameMap(es[..|es| - 1]);
      if InUse(last) then
        NameMapStep(es, m);
        m[EntryName(last) := EntrySector(last)]
      else
        NameMapStep(es, m);
        m
  }

  lemma NameMapStep(es: seq<Entry>, m: map<Name, nat>)
    requires es != [] && UniqueNames(es) && IsMap(es[..|es| - 1], m)
    ensures var last := es[|es| - 1];
      IsMap(es, if InUse(last) then m[EntryName(last) := EntrySector(last)] else m)
  {
    var n := |es| - 1;
    var r := if InUse(es[n]) then m[EntryName(es[n]) := EntrySector(es[n])] else m;
    forall name | name in r ensures exists i :: 0 <= i < |es| && Holds(es[i], name) {
      if name in m {
        var i :| 0 <= i < n && Holds(es[..n][i], name);
        assert Holds(es[i], name);
      } else {
        assert Holds(es[n], name);
      }
    }
    forall i | 0 <= i < |es| && InUse(es[i]) ensures EntryName(es[i]) in r && r[EntryName(es[i])] == EntrySector(es[i]) {
      if i < n { assert es[..n][i] == es[i]; }
    }
  }

  lemma MapIsUnique(es: seq<Entry>, m: map<Name, nat>, m': map<Name, nat>)
    requires IsMap(es, m) && IsMap(es, m')
    ensures m == m'
  {
    forall name | name in m ensures name in m' && m[name] == m'[name] {
      var i :| 0 <= i < |es| && Holds(es[i], name);
    }
    forall name | name in m' ensures name in m {
      var i :| 0 <= i < |es| && Holds(es[i], name);
    }
  }

  /** The linear search decides membership in the map and finds the bound sector. */
  lemma LookupIsMapLookup(es: seq<Entry>, name: Name)
    requires UniqueNames(es)
    ensures FindName(es, name).Some? <==> name in NameMap(es)
    ensures name in NameMap(es) ==> EntrySector(es[FindName(es, name).value]) == NameMap(es)[name]
  {
  }

  /** Storing a new name over an entry not in use binds it and keeps every other binding. */
  lemma BindFree(es: seq<Entry>, k: nat, e: Entry)
    requires UniqueNames(es) && k < |es| && !InUse(es[k]) && InUse(e) && EntryName(e) !in NameMap(es)
    ensures UniqueNames(es[k := e])
    ensures NameMap(es[k := e]) == NameMap(es)[EntryName(e) := EntrySector(e)]
  {
    BoundIsMap(es, k, e, NameMap(es));
    MapIsUnique(es[k := e], NameMap(es)[EntryName(e) := EntrySector(e)], NameMap(es[k := e]));
  }

  lemma BoundIsMap(es: seq<Entry>, k: nat, e: Entry, m: map<Name, nat>)
    requires IsMap(es, m) && k < |es| && !InUse(es[k]) && InUse(e) && EntryName(e) !in m
    ensures IsMap(es[k := e], m[EntryName(e) := EntrySector(e)])
  {
    var es', m' := es[k := e], m[EntryName(e) := EntrySector(e)];
    forall name | name in m' ensures exists i :: 0 <= i < |es'| && Holds(es'[i], name) {
      if name in m {
        var i :| 0 <= i < |es| && Holds(es[i], name);
        assert Holds(es'[i], name);
      } else {
        assert Holds(es'[k], name);
      }
    }
  }

  /** Erasing an entry in use removes its name and keeps every other binding. */
  lemma UnbindOne(es: seq<Entry>, k: nat)
    requires UniqueNames(es) && k < |es| && InUse(es[k])
    ensures UniqueNames(es[k := Erased(es[k])])
    ensures NameMap(es[k := Erased(es[k])]) == NameMap(es) - {EntryName(es[k])}
  {
    var es', m := es[k := Erased(es[k])], NameMap(es) - {EntryName(es[k])};
    forall name | name in m ensures exists i :: 0 <= i < |es'| && Holds(es'[i], name) {
      var i :| 0 <= i < |es| && Holds(es[i], name);
      assert i != k && es'[i] == es[i];
    }
    forall i | 0 <= i < |es'| && InUse(es'[i])
      ensures EntryName(es'[i]) in m && m[EntryName(es'[i])] == EntrySector(es'[i])
    {
      ErasedFields(es[k]);
      assert i != k && es'[i] == es[i] && EntryName(es[i]) != EntryName(es[k]);
    }
    assert UniqueNames(es');
    MapIsUnique(es', m, NameMap(es'));
  }

  // ----- dir_add and dir_remove on the bytes

  /** Effect of dir_add.  `seen` and `tried` are the numbers of entries its two scans could read
      before a read failed; `stored` says whether the final write had memory. */
  ghost predicate AddResult(c: seq<Byte>, name: Name, sector: nat, seen: nat, tried: nat, stored: bool, stale: Entry,
                            ok: bool, c': seq<Byte>)
    requires seen <= Slots(c) && tried <= Slots(c)
  {
    if !ValidName(name) || FindName(Entries(c)[..seen], name).Some? || !stored then !ok && c' == c
    else
      var k := FindFree(Entries(c)[..tried]);
      c' == PutSlot(c, k, NewEntry(stale, name, sector)) && (ok <==> k < Slots(c))
  }

  /** With every read served, dir_add binds exactly one new name or leaves the map alone. */
  lemma AddBindsOne(c: seq<Byte>, name: Name, sector: nat, stored: bool, stale: Entry, ok: bool, c': seq<Byte>)
    requires UniqueNames(Entries(c)) && sector < 0x1_0000_0000
    requires AddResult(c, name, sector, Slots(c), Slots(c), stored, stale, ok, c')
    ensures UniqueNames(Entries(c'))
    ensures ok ==> name !in NameMap(Entries(c)) && NameMap(Entries(c')) == NameMap(Entries(c))[name := sector]
    ensures !ok ==> NameMap(Entries(c')) == NameMap(Entries(c)) && (|c| % 20 == 0 ==> c' == c)
    ensures ok <==> stored && ValidName(name) && name !in NameMap(Entries(c)) && FindFree(Entries(c)) < Slots(c)
  {
    assert Entries(c)[..Slots(c)] == Entries(c);
    LookupIsMapLookup(Entries(c), name);
    if ValidName(name) && FindName(Entries(c), name).None? && stored {
      AddStores(c, name, sector, stale);
    }
  }

  lemma AddStores(c: seq<Byte>, name: Name, sector: nat, stale: Entry)
    requires UniqueNames(Entries(c)) && sector < 0x1_0000_0000 && ValidName(name) && name !in NameMap(Entries(c))
    ensures var k := FindFree(Entries(c));
      var c' := PutSlot(c, k, NewEntry(stale, name, sector));
      && UniqueNames(Entries(c'))
      && (k < Slots(c) ==> NameMap(Entries(c')) == NameMap(Entries(c))[name := sector])
      && (k == Slots(c) ==> Entries(c') == Entries(c) && (|c| % 20 == 0 ==> c' == c))
  {
    var k := FindFree(Entries(c));
    NewEntryFields(stale, name, sector);
    PutSlotEntries(c, k, NewEntry(stale, name, sector));
    if k < Slots(c) {
      BindFree(Entries(c), k, NewEntry(stale, name, sector));
    } else {
      PutNothing(c, NewEntry(stale, name, sector));
    }
  }

  lemma PutNothing(c: seq<Byte>, e: Entry)
    ensures |c| % 20 == 0 ==> PutSlot(c, Slots(c), e) == c
  {
  }

  /** dir_remove's erase deletes exactly one key. */
  lemma RemoveUnbindsOne(c: seq<Byte>, name: Name)
    requires UniqueNames(Entries(c)) && FindName(Entries(c), name).Some?
    ensures var i := FindName(Entries(c), name).value;
      var c' := PutSlot(c, i, Erased(Entries(c)[i]));
      UniqueNames(Entries(c')) && NameMap(Entries(c')) == NameMap(Entries(c)) - {name}
  {
    var i := FindName(Entries(c), name).value;
    PutSlotEntries(c, i, Erased(Entries(c)[i]));
    UnbindOne(Entries(c), i);
  }

  // ----- scans cut short by a failed allocation

  /** A scan that stops early never invents a name, and it gives the full scan's answer exactly
      when the name is absent or its entry was still read. */
  lemma CutLookup(es: seq<Entry>, name: Name, seen: nat)
    requires seen <= |es|
    ensures FindName(es[..seen], name).Some? ==> FindName(es[..seen], name) == FindName(es, name)
    ensures FindName(es[..seen], name) == FindName(es, name)
        <==> FindName(es, name).None? || FindName(es, name).value < seen
  {
    var cut, full := FindName(es[..seen], name), FindName(es, name);
    if cut.Some? { assert Holds(es[cut.value], name); }
    if full.Some? && full.value < seen { assert Holds(es[..seen][full.value], name); }
  }

  /** A successful dir_add binds a new name and keeps every old binding exactly when the name
      was unbound and the slot it chose was free. */
  lemma AddCorrectIff(c: seq<Byte>, name: Name, sector: nat, seen: nat, tried: nat, stale: Entry, c': seq<Byte>)
    requires UniqueNames(Entries(c)) && sector < 0x1_0000_0000 && seen <= Slots(c) && tried <= Slots(c)
    requires AddResult(c, name, sector, seen, tried, true, stale, true, c')
    ensures (name !in NameMap(Entries(c)) && UniqueNames(Entries(c'))
             && NameMap(Entries(c')) == NameMap(Entries(c))[name := sector])
        <==> name !in NameMap(Entries(c)) && !InUse(Entries(c)[FindFree(Entries(c)[..tried])])
  {
    var es, k := Entries(c), FindFree(Entries(c)[..tried]);
    var e := NewEntry(stale, name, sector);
    NewEntryFields(stale, name, sector);
    PutSlotEntries(c, k, e);
    if name !in NameMap(es) {
      if InUse(es[k]) {
        OverwriteLoses(es, k, e);
      } else {
        BindFree(es, k, e);
      }
    }
  }

  lemma OverwriteLoses(es: seq<Entry>, k: nat, e: Entry)
    requires UniqueNames(es) && k < |es| && InUse(es[k]) && InUse(e) && EntryName(e) !in NameMap(es)
    ensures UniqueNames(es[k := e]) && EntryName(es[k]) in NameMap(es) && EntryName(es[k]) !in NameMap(es[k := e])
  {
  }

  /** A directory of one entry in use: when the read of that entry is refused for lack of
      memory and the write is not, dir_add reports success and the old entry is lost. */
  lemma AddCanOverwrite(old20: Entry, name: Name, sector: nat, stale: Entry)
    requires InUse(old20) && ValidName(name) && name != EntryName(old20) && sector < 0x1_0000_0000
    ensures var e := NewEntry(stale, name, sector);
      && AddResult(old20, name, sector, 0, 0, true, stale, true, e)
      && Entries(old20) == [old20] && Entries(e) == [e]
      && FindName([old20], EntryName(old20)).Some? && FindName([e], EntryName(old20)).None?
  {
    var e := NewEntry(stale, name, sector);
    NewEntryFields(stale, name, sector);
    OneEntry(old20);
    OneEntry(e);
    PutOver(old20, e);
    assert FindName([], name).None?;
  }

  lemma OneEntry(e: Entry)
    ensures Entries(e) == [e] && Slots(e) == 1
  {
    assert e[0..20] == e;
  }

  lemma PutOver(old20: Entry, e: Entry)
    ensures PutSlot(old20, 0, e) == e
  {
  }

  // ----- listing

  /** Names dir_readdir returns from entry i on, in order. */
  function Listing(es: seq<Entry>, i: nat): (r: seq<Name>)
    requires i <= |es|
    decreases |es| - i
  {
    if i == |es| then []
    else (if InUse(es[i]) then [EntryName(es[i])] else []) + Listing(es, i + 1)
  }

  lemma ListingFirst(es: seq<Entry>, i: nat, name: Name)
    requires i < |es|
    ensures name in Listing(es, i) <==> Holds(es[i], name) || name in Listing(es, i + 1)
  {
    var first := if InUse(es[i]) then [EntryName(es[i])] else [];
    assert Listing(es, i) == first + Listing(es, i + 1);
  }

  lemma {:induction false} ListingMembers(es: seq<Entry>, i: nat, name: Name)
    requires i <= |es|
    ensures name in Listing(es, i) <==> exists j :: i <= j < |es| && Holds(es[j], name)
    decreases |es| - i
  {
    if i < |es| {
      ListingMembers(es, i + 1, name);
      ListingFirst(es, i, name);
    }
  }

  lemma {:induction false} ListingDistinct(es: seq<Entry>, i: nat)
    requires UniqueNames(es) && i <= |es|
    ensures Distinct(Listing(es, i))
    decreases |es| - i
  {
    if i < |es| {
      ListingDistinct(es, i + 1);
      if InUse(es[i]) {
        ListingMembers(es, i + 1, EntryName(es[i]));
        assert Listing(es, i) == [EntryName(es[i])] + Listing(es, i + 1);
      } else {
        assert Listing(es, i) == Listing(es, i + 1);
      }
    }
  }

  lemma {:induction false} ListingSplit(es: seq<Entry>, n: nat, i: nat)
    requires i <= n <= |es|
    ensures Listing(es, i) == Listing(es[..n], i) + Listing(es, n)
    decreases n - i
  {
    if i < n {
      ListingSplit(es, n, i + 1);
      assert Listing(es[..n], i) == (if InUse(es[i]) then [EntryName(es[i])] else []) + Listing(es[..n], i + 1);
    }
  }

  lemma {:induction false} ListingEmpty(es: seq<Entry>, i: nat)
    requires i <= |es|
    ensures Listing(es, i) == [] <==> forall j | i <= j < |es| :: !InUse(es[j])
    decreases |es| - i
  {
    if i < |es| {
      ListingEmpty(es, i + 1);
    }
  }

  /** Reading stopped before entry n, the listing is the full one exactly when no entry in use is
      left out. */
  lemma CutListing(es: seq<Entry>, n: nat)
    requires n <= |es|
    ensures Listing(es[..n], 0) == Listing(es, 0) <==> forall j | n <= j < |es| :: !InUse(es[j])
  {
    ListingSplit(es, n, 0);
    ListingEmpty(es, n);
  }

  /** A fresh handle lists every bound name exactly once and nothing else. */
  lemma ListsEachNameOnce(es: seq<Entry>)
    requires UniqueNames(es)
    ensures forall name: Name :: name in Listing(es, 0) <==> name in NameMap(es)
    ensures Distinct(Listing(es, 0))
  {
    forall name: Name ensures name in Listing(es, 0) <==> name in NameMap(es) {
      ListingMembers(es, 0, name);
      if i :| 0 <= i < |es| && Holds(es[i], name) {}
    }
    ListingDistinct(es, 0);
  }
}
