// The backup catalogue kept by the backup manager: an in-memory table of
// backup records, looked up by id, filtered by database, appended to and
// pruned under the rule that a full backup stays while increments name it.

module Catalogue {
  import opened Wrappers

  /** The `type` field of a record. */
  datatype BackupKind = Full | Incremental

  /** One catalogue record; `base` is the id of the backup an increment builds on. */
  datatype BackupRecord = BackupRecord(
    id: string,
    database: string,
    kind: BackupKind,
    destination: string,
    base: Option<string>,
    timestamp: string,
    status: string)

  /** The records of `s` on which `p` holds, in their order (a list comprehension with a filter). */
  function Keep(s: seq<BackupRecord>, p: BackupRecord -> bool): (r: seq<BackupRecord>)
    ensures |r| <= |s|
    ensures forall b :: multiset(r)[b] == if p(b) then multiset(s)[b] else 0
    ensures forall k :: 0 <= k < |r| ==> p(r[k]) && r[k] in s
  {
    if s == [] then []
    else
      var rest := Keep(s[1..], p);
      assert s == [s[0]] + s[1..];
      if p(s[0]) then [s[0]] + rest else rest
  }

  /** Filtering keeps the relative order: it distributes over concatenation. */
  lemma {:induction false} KeepAppend(a: seq<BackupRecord>, b: seq<BackupRecord>, p: BackupRecord -> bool)
    ensures Keep(a + b, p) == Keep(a, p) + Keep(b, p)
  {
    if a == [] {
      assert a + b == b;
    } else {
      var ab := a + b;
      assert ab[0] == a[0];
      assert ab[1..] == a[1..] + b;
      KeepAppend(a[1..], b, p);
      if p(a[0]) {
        calc {
          Keep(ab, p);
          [a[0]] + Keep(a[1..] + b, p);
          [a[0]] + (Keep(a[1..], p) + Keep(b, p));
          ([a[0]] + Keep(a[1..], p)) + Keep(b, p);
        }
      }
    }
  }

  /** A filter every record passes changes nothing. */
  lemma {:induction false} KeepAll(s: seq<BackupRecord>, p: BackupRecord -> bool)
    requires forall k :: 0 <= k < |s| ==> p(s[k])
    ensures Keep(s, p) == s
  {
    if s != [] {
      KeepAll(s[1..], p);
    }
  }

  /** The position of the first record with this id. */
  function FirstIndexOf(s: seq<BackupRecord>, id: string): (r: Option<nat>)
    ensures r == None <==> forall k :: 0 <= k < |s| ==> s[k].id != id
    ensures r.Some? ==> r.value < |s| && s[r.value].id == id
    ensures r.Some? ==> forall k :: 0 <= k < r.value ==> s[k].id != id
  {
    if s == [] then None
    else if s[0].id == id then Some(0)
    else match FirstIndexOf(s[1..], id)
      case None => None
      case Some(i) => Some(i + 1)
  }

  /** What `get_backup(id)` returns on the catalogue `s`: the first record with that id. */
  function Lookup(s: seq<BackupRecord>, id: string): (r: Option<BackupRecord>)
    ensures r == None <==> forall k :: 0 <= k < |s| ==> s[k].id != id
    ensures r.Some? ==> r.value.id == id
    ensures r.Some? ==> exists i :: 0 <= i < |s| && s[i] == r.value && forall k :: 0 <= k < i ==> s[k].id != id
  {
    match FirstIndexOf(s, id)
    case None => None
    case Some(i) => Some(s[i])
  }

  /** Some record names `id` as the backup it is based on. */
  predicate HasDependent(s: seq<BackupRecord>, id: string) {
    exists k :: 0 <= k < |s| && s[k].base == Some(id)
  }

  /** `remove_backup(id)` succeeds: the id is known and, if its first record is full, nothing depends on it. */
  predicate Removable(s: seq<BackupRecord>, id: string) {
    && Lookup(s, id).Some?
    && (Lookup(s, id).value.kind == Full ==> !HasDependent(s, id))
  }

  /** The catalogue with every record of that id filtered out. */
  function WithoutId(s: seq<BackupRecord>, id: string): (r: seq<BackupRecord>)
    ensures forall b :: multiset(r)[b] == if b.id == id then 0 else multiset(s)[b]
    ensures forall k :: 0 <= k < |r| ==> r[k].id != id
  {
    Keep(s, (b: BackupRecord) => b.id != id)
  }

  /** `list_backups(database)`: an empty or absent name means the whole catalogue. */
  function ListOf(s: seq<BackupRecord>, database: Option<string>): (r: seq<BackupRecord>)
    ensures (database == None || database == Some("")) ==> r == s
    ensures database.Some? && database.value != "" ==>
      forall b :: multiset(r)[b] == if b.database == database.value then multiset(s)[b] else 0
    ensures database.Some? && database.value != "" ==>
      forall k :: 0 <= k < |r| ==> r[k].database == database.value
  {
    match database
    case Some(name) => if name == "" then s else Keep(s, (b: BackupRecord) => b.database == name)
    case None => s
  }

  // ----- properties of the catalogue -----

  lemma KeepCons(h: BackupRecord, t: seq<BackupRecord>, p: BackupRecord -> bool)
    ensures Keep([h] + t, p) == (if p(h) then [h] else []) + Keep(t, p)
  {
    assert ([h] + t)[1..] == t;
  }

  lemma LookupCons(h: BackupRecord, t: seq<BackupRecord>, id: string)
    ensures Lookup([h] + t, id) == if h.id == id then Some(h) else Lookup(t, id)
  {
    assert ([h] + t)[1..] == t;
  }

  /**
   * After an append, a lookup finds what it found before; only an id not
   * yet present now finds the new record. A duplicate id is shadowed by
   * the older record.
   */
  lemma LookupAppend(s: seq<BackupRecord>, info: BackupRecord, id: string)
    ensures Lookup(s + [info], id)
         == if Lookup(s, id).Some? then Lookup(s, id) else if info.id == id then Some(info) else None
  {
    var t := s + [info];
    assert forall k :: 0 <= k < |s| ==> t[k] == s[k];
    match FirstIndexOf(s, id)
    case Some(i) =>
      assert FirstIndexOf(t, id) == Some(i);
    case None =>
      if info.id == id {
        assert t[|s|].id == id;
        assert forall k :: 0 <= k < |s| ==> t[k].id != id;
      } else {
        assert FirstIndexOf(t, id) == None;
      }
  }

  /** A filter that keeps every record with this id leaves its lookup unchanged. */
  lemma {:induction false} LookupKeep(s: seq<BackupRecord>, p: BackupRecord -> bool, id: string)
    requires forall k :: 0 <= k < |s| && s[k].id == id ==> p(s[k])
    ensures Lookup(Keep(s, p), id) == Lookup(s, id)
  {
    if s != [] {
      LookupKeep(s[1..], p, id);
      LookupCons(s[0], s[1..], id);
      assert s == [s[0]] + s[1..];
      if p(s[0]) {
        LookupCons(s[0], Keep(s[1..], p), id);
      }
    }
  }

  /** After removing an id, it is gone and every other id is looked up as before. */
  lemma LookupWithoutId(s: seq<BackupRecord>, id: string, other: string)
    ensures Lookup(WithoutId(s, id), id) == None
    ensures other != id ==> Lookup(WithoutId(s, other), id) == Lookup(s, id)
  {
    var r := WithoutId(s, id);
    assert forall k :: 0 <= k < |r| ==> r[k].id != id;
    if other != id {
      LookupKeep(s, (b: BackupRecord) => b.id != other, id);
    }
  }

  /** A second removal of the same id is refused and changes nothing. */
  lemma RemoveTwice(s: seq<BackupRecord>, id: string)
    ensures !Removable(WithoutId(s, id), id)
  {
    LookupWithoutId(s, id, id);
  }

  /** Listing after an append: the new record joins the end of its own database's list only. */
  lemma ListAfterAdd(s: seq<BackupRecord>, info: BackupRecord, database: string)
    requires database != ""
    ensures ListOf(s + [info], Some(database))
         == ListOf(s, Some(database)) + (if info.database == database then [info] else [])
  {
    var p := (b: BackupRecord) => b.database == database;
    KeepAppend(s, [info], p);
    assert Keep([info], p) == if p(info) then [info] else [] by {
      assert [info][1..] == [];
    }
  }

  /** A full backup named by two increments; the first increment can go. */
  lemma RemoveFirstIncrement(f: BackupRecord, i1: BackupRecord, i2: BackupRecord)
    requires f.kind == Full && i1.kind == Incremental && i1.base == Some(f.id)
    requires f.id != i1.id && f.id != i2.id && i1.id != i2.id
    ensures !Removable([f, i1, i2], f.id)
    ensures Removable([f, i1, i2], i1.id) && WithoutId([f, i1, i2], i1.id) == [f, i2]
  {
    var s := [f, i1, i2];
    assert Lookup(s, f.id) == Some(f);
    assert s[1].base == Some(f.id);
    assert Lookup(s, i1.id) == Some(i1) by {
      assert [f] + [i1, i2] == s && [i1] + [i2] == [i1, i2];
      LookupCons(f, [i1, i2], i1.id);
      LookupCons(i1, [i2], i1.id);
    }
    DropMiddle(f, i1, i2);
  }

  lemma DropMiddle(f: BackupRecord, i1: BackupRecord, i2: BackupRecord)
    requires f.id != i1.id && i1.id != i2.id
    ensures WithoutId([f, i1, i2], i1.id) == [f, i2]
  {
    var p := (b: BackupRecord) => b.id != i1.id;
    calc {
      Keep([f, i1, i2], p);
      { assert [f, i1, i2] == [f] + [i1, i2]; KeepCons(f, [i1, i2], p); }
      [f] + Keep([i1, i2], p);
      { assert [i1, i2] == [i1] + [i2]; KeepCons(i1, [i2], p); }
      [f] + Keep([i2], p);
      { assert [i2] == [i2] + []; KeepCons(i2, [], p); }
      [f] + [i2];
    }
  }

  /** A full backup named by one increment; the increment can go. */
  lemma RemoveLastIncrement(f: BackupRecord, i2: BackupRecord)
    requires f.kind == Full && i2.kind == Incremental && i2.base == Some(f.id) && f.id != i2.id
    ensures !Removable([f, i2], f.id)
    ensures Removable([f, i2], i2.id) && WithoutId([f, i2], i2.id) == [f]
  {
    var s := [f, i2];
    assert [f] + [i2] == s && [i2] + [] == [i2];
    assert Lookup(s, f.id) == Some(f);
    assert s[1].base == Some(f.id);
    LookupCons(f, [i2], i2.id);
    LookupCons(i2, [], i2.id);
    var p := (b: BackupRecord) => b.id != i2.id;
    KeepCons(f, [i2], p);
    KeepCons(i2, [], p);
  }

  /** A full backup nothing depends on can go. */
  lemma RemoveLoneFull(f: BackupRecord)
    requires f.base != Some(f.id)
    ensures Removable([f], f.id) && WithoutId([f], f.id) == []
  {
    assert Lookup([f], f.id) == Some(f);
    KeepCons(f, [], (b: BackupRecord) => b.id != f.id);
    assert [f] + [] == [f];
  }

  /**
   * The dependency scenario of the integration tests: a full backup with
   * two increments on it is refused until both increments are removed.
   */
  lemma DependencyScenario(f: BackupRecord, i1: BackupRecord, i2: BackupRecord)
    requires f.kind == Full && f.base == None
    requires i1.kind == Incremental && i2.kind == Incremental
    requires i1.base == Some(f.id) && i2.base == Some(f.id)
    requires f.id != i1.id && f.id != i2.id && i1.id != i2.id
    ensures !Removable([f, i1, i2], f.id)
    ensures Removable([f, i1, i2], i1.id) && WithoutId([f, i1, i2], i1.id) == [f, i2]
    ensures !Removable([f, i2], f.id)
    ensures Removable([f, i2], i2.id) && WithoutId([f, i2], i2.id) == [f]
    ensures Removable([f], f.id) && WithoutId([f], f.id) == []
  {
    RemoveFirstIncrement(f, i1, i2);
    RemoveLastIncrement(f, i2);
    RemoveLoneFull(f);
  }

  /** The backup manager: the catalogue as a list field it appends to and reassigns. */
  class BackupManager {
    var backups: seq<BackupRecord>

    /** Start from the records loaded from the metadata file (none when it does not exist). */
    constructor (loaded: seq<BackupRecord>)
      ensures backups == loaded
    {
      backups := loaded;
    }

    /** `add_backup`: append the record at the end; ids are not checked for duplicates. */
    method AddBackup(info: BackupRecord)
      modifies this
      ensures backups == old(backups) + [info]
    {
      backups := backups + [info];
    }

    /** `get_backup`: scan the records in order and return the first with this id. */
    method GetBackup(id: string) returns (found: Option<BackupRecord>)
      ensures found == None <==> forall k :: 0 <= k < |backups| ==> backups[k].id != id
      ensures found.Some? ==>
        exists i :: 0 <= i < |backups| && found.value == backups[i] && backups[i].id == id &&
          forall k :: 0 <= k < i ==> backups[k].id != id
      ensures found == Lookup(backups, id)
    {
      for i := 0 to |backups|
        invariant forall k :: 0 <= k < i ==> backups[k].id != id
      {
        if backups[i].id == id {
          return Some(backups[i]);
        }
      }
      return None;
    }

    /**
     * `remove_backup`: refuse an unknown id, and a full backup that some
     * record names as its base; otherwise drop every record with that id.
     * An incremental record is removed whatever depends on it.
     */
    method RemoveBackup(id: string) returns (removed: bool)
      modifies this
      ensures removed == Removable(old(backups), id)
      ensures backups == if removed then WithoutId(old(backups), id) else old(backups)
    {
      var backup := GetBackup(id);
      if backup == None {
        return false;
      }
      if backup.value.kind == Full {
        for i := 0 to |backups|
          invariant forall k :: 0 <= k < i ==> backups[k].base != Some(id)
        {
          if backups[i].base == Some(id) {
            return false;
          }
        }
      }
      backups := WithoutId(backups, id);
      return true;
    }

    /** `list_backups(database)`: the records of that database, or all of them. */
    function ListBackups(database: Option<string>): (r: seq<BackupRecord>)
      reads this
      ensures (database == None || database == Some("")) ==> r == backups
      ensures database.Some? && database.value != "" ==>
        forall b :: multiset(r)[b] == if b.database == database.value then multiset(backups)[b] else 0
      ensures database.Some? && database.value != "" ==>
        forall k :: 0 <= k < |r| ==> r[k].database == database.value
    {
      ListOf(backups, database)
    }
  }
}
