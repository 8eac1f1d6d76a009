/**
 * `clean-backups`: pick which snapshot folders to delete (keep the last 5,
 * keep the last 10, delete all, or keep the ones named by number), confirm,
 * then remove exactly those folders.
 */
module Clean {
  import opened Wrappers
  import opened Text
  import opened Tree
  import opened Store

  // ---------------------------------------------------------------------------
  // The deletion list
  // ---------------------------------------------------------------------------

  /** The length JavaScript's `slice(0, -n)` keeps of a sequence of length `len`. */
  function SliceEnd(len: nat, n: nat): (end: nat)
    ensures end <= len
    ensures end + n >= len && (end > 0 ==> end + n == len)
  {
    if len > n then len - n else 0
  }

  /** `backups.slice(0, -n)`: all but the last `n`. */
  function AllButLast(backups: seq<string>, n: nat): (toDelete: seq<string>)
    requires n > 0
    ensures |toDelete| == SliceEnd(|backups|, n)
    ensures backups == toDelete + backups[|toDelete|..]
  {
    backups[..SliceEnd(|backups|, n)]
  }

  /**
   * Keeping the last `n` of the snapshots (oldest first) deletes the oldest
   * `max(len - n, 0)` and keeps the newest `min(len, n)`: everything deleted is
   * older than everything kept, and with `n` or fewer nothing is deleted.
   */
  lemma KeepLastSurvivors(backups: seq<string>, n: nat)
    requires n > 0 && StrictlyAscending(backups)
    ensures var d := AllButLast(backups, n);
            && |d| == (if |backups| > n then |backups| - n else 0)
            && |backups| - |d| == (if |backups| < n then |backups| else n)
            && backups == d + backups[|d|..]
            && (forall i, j :: 0 <= i < |d| <= j < |backups| ==> LexLess(d[i], backups[j]))
            && (|backups| <= n ==> d == [])
  {
  }

  /** What each piece, trimmed, parses to, NaN as `None`. */
  function PieceValues(parts: seq<string>): seq<Option<int>> {
    if parts == [] then [] else [ParseInt(Trim(parts[0]))] + PieceValues(parts[1..])
  }

  /** Some comma-separated piece of `text`, trimmed, parses to `n`. */
  predicate Names(text: string, n: int) {
    Some(n) in PieceValues(Split(text, ','))
  }

  /**
   * `new Set(text.split(',').map(n => parseInt(n.trim()) - 1))`, the kept
   * positions; a piece that is NaN adds NaN, which matches no position, and
   * is left out here.
   */
  function KeepSet(text: string): (keep: set<int>)
    ensures forall i :: i in keep <==> Names(text, i + 1)
  {
    KeepOfMeaning(PieceValues(Split(text, ',')));
    KeepOf(PieceValues(Split(text, ',')))
  }

  /** The positions the numbers name, one less than each number. */
  function KeepOf(vs: seq<Option<int>>): set<int> {
    if vs == [] then {}
    else (if vs[0].Some? then {vs[0].value - 1} else {}) + KeepOf(vs[1..])
  }

  lemma {:induction false} KeepOfMeaning(vs: seq<Option<int>>)
    ensures forall i :: i in KeepOf(vs) <==> Some(i + 1) in vs
  {
    if vs != [] {
      KeepOfMeaning(vs[1..]);
      assert vs == [vs[0]] + vs[1..];
    }
  }

  /** `backups.filter((_, index) => !keep.has(index))`, with `from` the index of `backups[0]`. */
  function Unkept(backups: seq<string>, keep: set<int>, from: nat): (toDelete: seq<string>)
    ensures Elems(toDelete) <= Elems(backups)
    ensures |toDelete| <= |backups|
  {
    if backups == [] then []
    else
      var tail := Unkept(backups[1..], keep, from + 1);
      assert Elems(backups) == {backups[0]} + Elems(backups[1..]) by {
        assert backups == [backups[0]] + backups[1..];
      }
      if from in keep then tail
      else
        assert Elems([backups[0]] + tail) == {backups[0]} + Elems(tail);
        [backups[0]] + tail
  }

  /** A snapshot is deleted exactly when its position is not among the kept ones. */
  lemma {:induction false} UnkeptExactly(backups: seq<string>, keep: set<int>, from: nat)
    requires Distinct(backups)
    ensures forall i :: 0 <= i < |backups| ==> (backups[i] in Unkept(backups, keep, from) <==> from + i !in keep)
  {
    if backups != [] {
      var rest := backups[1..];
      var tail := Unkept(rest, keep, from + 1);
      DistinctTail(backups);
      UnkeptExactly(rest, keep, from + 1);
      var head := if from in keep then [] else [backups[0]];
      assert Unkept(backups, keep, from) == head + tail;
      forall i | 0 <= i < |backups|
        ensures backups[i] in head + tail <==> from + i !in keep
      {
        if i == 0 {
          assert backups[0] !in tail;
        } else {
          assert backups[i] == rest[i - 1];
          assert backups[i] !in head;
        }
      }
    }
  }

  /** When no entered number names a position, the custom option deletes everything. */
  lemma NoKeptPositions(backups: seq<string>, keep: set<int>, from: nat)
    requires forall i :: from <= i < from + |backups| ==> i !in keep
    ensures Unkept(backups, keep, from) == backups
  {
    if backups != [] {
      NoKeptPositions(backups[1..], keep, from + 1);
      assert backups == [backups[0]] + backups[1..];
    }
  }

  /** A single number keeps the snapshot it numbers. */
  lemma KeepOneNumber(k: nat)
    ensures KeepSet(Decimal(k)) == {k as int - 1}
  {
    NumberPieces(k);
    OnePieceValue(Decimal(k), k as int);
    KeepOfOne(k as int);
  }

  lemma OnePieceValue(s: string, v: int)
    requires ParseInt(Trim(s)) == Some(v)
    ensures PieceValues([s]) == [Some(v)]
  {
    assert PieceValues([s]) == [Some(v)] + PieceValues([]);
  }

  lemma KeepOfOne(n: int)
    ensures KeepOf([Some(n)]) == {n - 1}
  {
    assert KeepOf([Some(n)]) == {n - 1} + KeepOf([]);
  }

  lemma NumberPieces(k: nat)
    ensures Split(Decimal(k), ',') == [Decimal(k)]
    ensures ParseInt(Trim(Decimal(k))) == Some(k as int)
  {
    var s := Decimal(k);
    assert ',' !in s by {
      assert forall i :: 0 <= i < |s| ==> s[i] != ',';
    }
    assert TrimStart(s) == s by {
      assert !IsJsSpace(s[0]);
    }
    assert TrimEnd(s) == s by {
      assert !IsJsSpace(s[|s| - 1]);
    }
    ParseIntDecimal(k);
  }

  /** What the menu answer asks for. */
  datatype Plan = Quit | InvalidChoice | Delete(toDelete: seq<string>)

  /**
   * Options `1`–`4` (compared exactly, as the `switch` does) give the
   * deletion list; `q` in either case quits and anything else is invalid.
   */
  function PlanFor(choice: string, keepText: string, backups: seq<string>): (p: Plan)
    ensures p == Quit <==> IsQuit(choice)
    ensures p == InvalidChoice <==> !IsQuit(choice) && choice !in ["1", "2", "3", "4"]
    ensures p.Delete? ==> IsSubsequence(p.toDelete, backups)
    ensures choice == "1" ==> p == Delete(AllButLast(backups, 5))
    ensures choice == "2" ==> p == Delete(AllButLast(backups, 10))
    ensures choice == "3" ==> p == Delete(backups)
    ensures choice == "4" ==> p == Delete(Unkept(backups, KeepSet(keepText), 0))
  {
    if IsQuit(choice) then Quit
    else if choice == "1" then PrefixSubsequence(backups, SliceEnd(|backups|, 5)); Delete(AllButLast(backups, 5))
    else if choice == "2" then PrefixSubsequence(backups, SliceEnd(|backups|, 10)); Delete(AllButLast(backups, 10))
    else if choice == "3" then
      PrefixSubsequence(backups, |backups|);
      assert backups[..|backups|] == backups;
      Delete(backups)
    else if choice == "4" then
      UnkeptSubsequence(backups, KeepSet(keepText), 0);
      Delete(Unkept(backups, KeepSet(keepText), 0))
    else InvalidChoice
  }

  lemma {:induction false} UnkeptSubsequence(backups: seq<string>, keep: set<int>, from: nat)
    ensures IsSubsequence(Unkept(backups, keep, from), backups)
  {
    if backups != [] {
      UnkeptSubsequence(backups[1..], keep, from + 1);
    }
  }

  lemma {:induction false} PrefixSubsequence(s: seq<string>, n: nat)
    requires n <= |s|
    ensures IsSubsequence(s[..n], s)
  {
    if n > 0 {
      PrefixSubsequence(s[1..], n - 1);
      assert s[..n][1..] == s[1..][..n - 1];
    }
  }

  // ---------------------------------------------------------------------------
  // A run
  // ---------------------------------------------------------------------------

  /** How a run ends. */
  datatype Outcome = NoStore | NoBackups | Cancelled | Invalid | NothingToDelete | Declined
                   | Deleted(toDelete: seq<string>, remaining: int)

  /**
   * The delete loop: `removeDir` of each listed folder in turn. Exactly the
   * listed entries leave the store.
   */
  method DeleteAll(w: Workspace, toDelete: seq<string>)
    requires w.backups.Some? && Elems(toDelete) <= DirNames(w.backups.value)
    modifies w
    ensures w.project == old(w.project)
    ensures w.backups == Some(old(w.backups).value - Elems(toDelete))
  {
    ghost var store := w.backups.value;
    assert store - Elems(toDelete[..0]) == store;
    for i := 0 to |toDelete|
      invariant w.project == old(w.project)
      invariant w.backups == Some(store - Elems(toDelete[..i]))
    {
      ElemsPrefix(toDelete, i);
      assert toDelete[i] in Elems(toDelete);
      var rest := RemoveDir(w.backups.value, toDelete[i]);
      assert rest == store - Elems(toDelete[..i + 1]);
      w.backups := Some(rest);
    }
    assert toDelete[..|toDelete|] == toDelete;
  }

  /**
   * A run of `clean-backups` with the menu answer, the custom keep list and the
   * confirmation. The snapshots are the store's directories in sorted order.
   */
  method RunClean(w: Workspace, choice: string, keepText: string, confirm: string)
    returns (backups: seq<string>, outcome: Outcome)
    modifies w
    ensures w.project == old(w.project)
    ensures old(w.backups).None? <==> outcome == NoStore
    ensures old(w.backups).Some? ==> StrictlyAscending(backups) && Elems(backups) == DirNames(old(w.backups).value)
    ensures outcome == NoBackups <==> old(w.backups).Some? && backups == []
    ensures outcome == Cancelled <==> old(w.backups).Some? && backups != [] && IsQuit(choice)
    ensures outcome == Invalid <==> old(w.backups).Some? && backups != [] && PlanFor(choice, keepText, backups) == InvalidChoice
    ensures outcome == NothingToDelete <==> old(w.backups).Some? && backups != [] && PlanFor(choice, keepText, backups) == Delete([])
    ensures outcome == Declined <==>
              && old(w.backups).Some? && backups != []
              && PlanFor(choice, keepText, backups).Delete? && PlanFor(choice, keepText, backups).toDelete != []
              && !IsYes(confirm)
    ensures outcome.Deleted? <==>
              && old(w.backups).Some? && backups != []
              && PlanFor(choice, keepText, backups).Delete? && PlanFor(choice, keepText, backups).toDelete != []
              && IsYes(confirm)
    ensures outcome.Deleted? ==>
              && outcome.toDelete == PlanFor(choice, keepText, backups).toDelete
              && w.backups == Some(old(w.backups).value - Elems(outcome.toDelete))
              && outcome.remaining == |backups| - |outcome.toDelete|
    ensures !outcome.Deleted? ==> w.backups == old(w.backups)
  {
    if w.backups.None? {
      return [], NoStore;
    }
    var store := w.backups.value;
    backups := Candidates(store);
    if backups == [] {
      return backups, NoBackups;
    }
    var plan := PlanFor(choice, keepText, backups);
    if plan == Quit {
      return backups, Cancelled;
    }
    if plan == InvalidChoice {
      return backups, Invalid;
    }
    var toDelete := plan.toDelete;
    if toDelete == [] {
      return backups, NothingToDelete;
    }
    if !IsYes(confirm) {
      return backups, Declined;
    }
    SubsequenceElems(toDelete, backups);
    DeleteAll(w, toDelete);
    outcome := Deleted(toDelete, |backups| - |toDelete|);
  }

  /**
   * The reported count of remaining snapshots is the number of snapshot
   * folders left in the store.
   */
  lemma RemainingIsLeft(store: map<string, Node>, backups: seq<string>, toDelete: seq<string>)
    requires StrictlyAscending(backups) && Elems(backups) == DirNames(store)
    requires IsSubsequence(toDelete, backups)
    ensures DirNames(store - Elems(toDelete)) == DirNames(store) - Elems(toDelete)
    ensures |DirNames(store - Elems(toDelete))| == |backups| - |toDelete|
  {
    AscendingDistinct(backups);
    SubsequenceElems(toDelete, backups);
    DistinctCard(backups);
    DistinctCard(toDelete);
    var left := DirNames(store - Elems(toDelete));
    assert left == DirNames(store) - Elems(toDelete);
    assert |DirNames(store) - Elems(toDelete)| == |DirNames(store)| - |Elems(toDelete)|;
  }
}
