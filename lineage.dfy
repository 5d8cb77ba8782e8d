// Lineage of the catalogue: every increment names, as its base, a backup
// the catalogue still holds. Appending a checked increment and refusing to
// remove a full backup with dependents keep this; removing an increment that
// is itself a base does not.

module Lineage {
  import opened Wrappers
  import opened Catalogue

  /** Every record that names a base finds a record with that id in the catalogue. */
  predicate BasesKnown(s: seq<BackupRecord>) {
    forall j :: 0 <= j < |s| && s[j].base.Some? ==>
      exists i :: 0 <= i < |s| && s[i].id == s[j].base.value
  }

  lemma LookupFindsRecord(s: seq<BackupRecord>, id: string)
    requires Lookup(s, id).Some?
    ensures exists i :: 0 <= i < |s| && s[i].id == id
  {
    var i := FirstIndexOf(s, id).value;
    assert s[i].id == id;
  }

  /** Appending a full record, or a record whose base is found, keeps every base known. */
  lemma AppendKeepsBases(s: seq<BackupRecord>, info: BackupRecord)
    requires BasesKnown(s)
    requires info.base.Some? ==> Lookup(s, info.base.value).Some?
    ensures BasesKnown(s + [info])
  {
    var t := s + [info];
    forall j | 0 <= j < |t| && t[j].base.Some?
      ensures exists i :: 0 <= i < |t| && t[i].id == t[j].base.value
    {
      var want := t[j].base.value;
      if j < |s| {
        assert t[j] == s[j];
        var i :| 0 <= i < |s| && s[i].id == want;
        assert t[i] == s[i];
      } else {
        LookupFindsRecord(s, want);
        var i :| 0 <= i < |s| && s[i].id == want;
        assert t[i] == s[i];
      }
    }
  }

  /** Removing an id nobody names as base keeps every base known. */
  lemma RemovalKeepsBases(s: seq<BackupRecord>, id: string)
    requires BasesKnown(s)
    requires !HasDependent(s, id)
    ensures BasesKnown(WithoutId(s, id))
  {
    var p := (b: BackupRecord) => b.id != id;
    var r := WithoutId(s, id);
    forall j | 0 <= j < |r| && r[j].base.Some?
      ensures exists i :: 0 <= i < |r| && r[i].id == r[j].base.value
    {
      var want := r[j].base.value;
      assert r[j] in s;
      var jj :| 0 <= jj < |s| && s[jj] == r[j];
      var i :| 0 <= i < |s| && s[i].id == want;
      assert want != id;
      assert multiset(r)[s[i]] == multiset(s)[s[i]];
      assert s[i] in multiset(s);
      assert s[i] in r;
    }
  }

  /**
   * The guarded delete keeps every base known whenever it refuses what it
   * must: a full record is removed only when nothing depends on it.
   */
  lemma GuardedFullRemovalKeepsBases(s: seq<BackupRecord>, id: string)
    requires BasesKnown(s)
    requires Removable(s, id) && Lookup(s, id).value.kind == Full
    ensures BasesKnown(WithoutId(s, id))
  {
    RemovalKeepsBases(s, id);
  }

  /** A full backup, an increment on it, and an increment on that increment. */
  lemma ChainBasesKnown(f: BackupRecord, i1: BackupRecord, i2: BackupRecord)
    requires f.base == None && i1.base == Some(f.id) && i2.base == Some(i1.id)
    ensures BasesKnown([f, i1, i2])
  {
    var s := [f, i1, i2];
    forall j | 0 <= j < |s| && s[j].base.Some?
      ensures exists i :: 0 <= i < |s| && s[i].id == s[j].base.value
    {
      if j == 1 {
        assert s[0].id == f.id;
      } else {
        assert s[1].id == i1.id;
      }
    }
  }

  /** Once the middle increment is gone, the last one names an unknown base. */
  lemma OrphanedIncrement(f: BackupRecord, i1: BackupRecord, i2: BackupRecord)
    requires i2.base == Some(i1.id) && f.id != i1.id && i2.id != i1.id
    ensures !BasesKnown([f, i2])
  {
    var t := [f, i2];
    assert t[1].base.Some? && t[1].base.value == i1.id;
    assert forall i :: 0 <= i < |t| ==> t[i].id != i1.id;
  }

  /**
   * The dependent check covers full records only: an increment that is
   * itself the base of another increment is removed, and the second
   * increment's base is then unknown.
   */
  lemma IncrementRemovalCanDangle(f: BackupRecord, i1: BackupRecord, i2: BackupRecord)
    requires f.kind == Full && f.base == None
    requires i1.kind == Incremental && i1.base == Some(f.id)
    requires i2.kind == Incremental && i2.base == Some(i1.id)
    requires f.id != i1.id && f.id != i2.id && i1.id != i2.id
    ensures BasesKnown([f, i1, i2])
    ensures Removable([f, i1, i2], i1.id)
    ensures WithoutId([f, i1, i2], i1.id) == [f, i2]
    ensures !BasesKnown([f, i2])
  {
    ChainBasesKnown(f, i1, i2);
    assert Lookup([f, i1, i2], i1.id) == Some(i1) by {
      assert [f] + [i1, i2] == [f, i1, i2] && [i1] + [i2] == [i1, i2];
      LookupCons(f, [i1, i2], i1.id);
      LookupCons(i1, [i2], i1.id);
    }
    DropMiddle(f, i1, i2);
    OrphanedIncrement(f, i1, i2);
  }
}
