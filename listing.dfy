/**
 * `list-backups`: every snapshot folder, newest first and numbered from 1,
 * with its description, date, file count and size, then the total size.
 */
module Listing {
  import opened Wrappers
  import opened Tree
  import opened Store

  /** The unit a size is printed in. */
  datatype Unit = KB | MB

  /** `size > 1024 * 1024 ? … MB : … KB`. */
  function UnitFor(size: nat): (u: Unit)
    ensures u == MB <==> size > 1048576
  {
    if size > 1024 * 1024 then MB else KB
  }

  /** What the listing shows of one snapshot's metadata. */
  datatype Shown = Shown(description: string, date: string, fileCount: Option<nat>)

  /**
   * The metadata shown: the record's fields when it was read, otherwise the
   * defaults "No description", "Unknown date" and an empty file list. The
   * file count is `info.files.length`, or "Unknown" (`None`) when the record
   * has no `files`.
   */
  function ShownInfo(info: Option<Info>): (s: Shown)
    ensures info.None? ==> s == Shown("No description", "Unknown date", Some(0))
    ensures info.Some? ==> s.description == info.value.description && s.date == info.value.date
    ensures info.Some? ==> (s.fileCount.Some? <==> info.value.files.Some?)
    ensures info.Some? && info.value.files.Some? ==> s.fileCount == Some(|info.value.files.value|)
  {
    var i := info.GetOr(Info("", "Unknown date", "No description", Some([])));
    Shown(i.description, i.date, if i.files.Some? then Some(|i.files.value|) else None)
  }

  /** One entry of the listing. */
  datatype Row = Row(number: nat, name: string, shown: Shown, size: nat, unit: Unit)

  /** The row the listing prints for snapshot `name` at 0-based position `index`. */
  ghost function RowFor(store: map<string, Node>, name: string, index: nat): Row
    requires name in store
  {
    var size := Size(store[name]);
    Row(index + 1, name, ShownInfo(ReadInfo(store[name])), size, UnitFor(size))
  }

  /** The sum of the rows' sizes. */
  function Total(rows: seq<Row>): nat {
    if rows == [] then 0 else Total(rows[..|rows| - 1]) + rows[|rows| - 1].size
  }

  /** The outcome of a listing: exit 1 with a message, or the rows and total. */
  datatype Listed = NoStore | NoBackups | Listed(rows: seq<Row>, total: nat, totalUnit: Unit)

  /** The process exit status. */
  function ExitCode(l: Listed): (code: int)
    ensures code == 0 <==> l.Listed?
  {
    if l.Listed? then 0 else 1
  }

  /** The names of the rows, in order. */
  function Names(rows: seq<Row>): (names: seq<string>)
    ensures |names| == |rows|
    ensures forall i :: 0 <= i < |rows| ==> names[i] == rows[i].name
  {
    if rows == [] then [] else [rows[0].name] + Names(rows[1..])
  }

  /**
   * `l` is what listing the store `backups` prints: a missing store, a store
   * without snapshot folders, or one row per snapshot folder, newest first,
   * with the total of their sizes.
   */
  ghost predicate Lists(backups: Option<map<string, Node>>, l: Listed) {
    match backups
    case None => l == NoStore
    case Some(store) =>
      if DirNames(store) == {} then l == NoBackups
      else
        && l.Listed?
        && StrictlyAscending(Reverse(Names(l.rows)))
        && Elems(Names(l.rows)) == DirNames(store)
        && (forall i :: 0 <= i < |l.rows| ==> l.rows[i].name in store && l.rows[i] == RowFor(store, l.rows[i].name, i))
        && l.total == Total(l.rows)
        && l.totalUnit == UnitFor(l.total)
  }

  /** Listing twice with no change in between prints the same thing. */
  lemma ListingDeterministic(backups: Option<map<string, Node>>, l1: Listed, l2: Listed)
    requires Lists(backups, l1) && Lists(backups, l2)
    ensures l1 == l2
  {
    if backups.Some? && DirNames(backups.value) != {} {
      var store := backups.value;
      var n1, n2 := Names(l1.rows), Names(l2.rows);
      ReverseElems(n1);
      ReverseElems(n2);
      AscendingUnique(Reverse(n1), Reverse(n2));
      ReverseInjective(n1, n2);
      assert l1.rows == l2.rows by {
        forall i | 0 <= i < |l1.rows| ensures l1.rows[i] == l2.rows[i] {
          assert n1[i] == n2[i];
        }
      }
    }
  }

  lemma ReverseElems(s: seq<string>)
    ensures Elems(Reverse(s)) == Elems(s)
  {
    var r := Reverse(s);
    forall x | x in Elems(s) ensures x in Elems(r) {
      var i :| 0 <= i < |s| && s[i] == x;
      assert r[|s| - 1 - i] == x;
    }
  }

  lemma ReverseInjective(a: seq<string>, b: seq<string>)
    requires Reverse(a) == Reverse(b)
    ensures a == b
  {
    assert |a| == |b|;
    forall i | 0 <= i < |a| ensures a[i] == b[i] {
      assert Reverse(a)[|a| - 1 - i] == Reverse(b)[|a| - 1 - i];
    }
  }

  /**
   * The `forEach` over the snapshot folders: one row per folder, in the given
   * order, and the running total of their sizes.
   */
  method SummariseAll(store: map<string, Node>, backups: seq<string>) returns (rows: seq<Row>, total: nat)
    requires forall k :: 0 <= k < |backups| ==> backups[k] in store && store[backups[k]].Dir?
    ensures |rows| == |backups|
    ensures forall k :: 0 <= k < |backups| ==> rows[k] == RowFor(store, backups[k], k)
    ensures total == Total(rows)
  {
    rows, total := [], 0;
    for i := 0 to |backups|
      invariant |rows| == i
      invariant forall k :: 0 <= k < i ==> rows[k] == RowFor(store, backups[k], k)
      invariant total == Total(rows)
    {
      var name := backups[i];
      var snapshot := store[name];
      var shown := ShownInfo(ReadInfo(snapshot));
      var size := GetDirSize(snapshot);
      var row := Row(i + 1, name, shown, size, UnitFor(size));
      assert (rows + [row])[..|rows|] == rows;
      rows := rows + [row];
      total := total + size;
    }
  }

  /**
   * `list-backups`: fail when the store is missing or holds no snapshot
   * folder; otherwise list the folders newest first.
   */
  method ListBackups(w: Workspace) returns (l: Listed)
    ensures Lists(w.backups, l)
  {
    if w.backups.None? {
      return NoStore;
    }
    var store := w.backups.value;
    var ascending := Candidates(store);
    var backups := Reverse(ascending);
    ReverseElems(ascending);
    if |backups| == 0 {
      assert DirNames(store) == {} by {
        assert ascending == [];
      }
      return NoBackups;
    }
    assert forall k :: 0 <= k < |backups| ==> backups[k] in DirNames(store) by {
      assert forall k :: 0 <= k < |backups| ==> backups[k] in Elems(backups);
    }
    var rows, total := SummariseAll(store, backups);
    l := Listed(rows, total, UnitFor(total));
    NewestFirst(store, ascending, rows);
  }

  lemma NewestFirst(store: map<string, Node>, ascending: seq<string>, rows: seq<Row>)
    requires StrictlyAscending(ascending) && Elems(ascending) == DirNames(store)
    requires |rows| == |ascending|
    requires forall k :: 0 <= k < |rows| ==> Reverse(ascending)[k] in store && rows[k] == RowFor(store, Reverse(ascending)[k], k)
    ensures StrictlyAscending(Reverse(Names(rows)))
    ensures Elems(Names(rows)) == DirNames(store)
    ensures forall i :: 0 <= i < |rows| ==> rows[i].name in store && rows[i] == RowFor(store, rows[i].name, i)
  {
    assert Names(rows) == Reverse(ascending);
    ReverseInjective(Reverse(Reverse(ascending)), ascending);
    ReverseElems(ascending);
  }
}
