/**
 * The backup store as all four scripts see it: the `backups/` directory of the
 * project, its snapshot folders found by `readdirSync().filter(isDirectory).sort()`,
 * and the `backup-info.json` record inside each snapshot.
 */
module Store {
  import opened Wrappers
  import opened Text
  import opened Tree

  /** The metadata file every snapshot folder holds. */
  const InfoFile: string := "backup-info.json"

  /**
   * The state the scripts act on: the project root's entries (apart from the
   * store itself) and the `backups/` directory, `None` while it does not exist.
   */
  class Workspace {
    var project: map<string, Node>
    var backups: Option<map<string, Node>>

    constructor (project: map<string, Node>, backups: Option<map<string, Node>>)
      ensures this.project == project && this.backups == backups
    {
      this.project := project;
      this.backups := backups;
    }
  }

  // ---------------------------------------------------------------------------
  // Ordering
  // ---------------------------------------------------------------------------

  predicate LexLe(a: string, b: string) {
    a == b || LexLess(a, b)
  }

  /** Non-decreasing in string order. */
  predicate Sorted(s: seq<string>) {
    forall i, j :: 0 <= i < j < |s| ==> LexLe(s[i], s[j])
  }

  /** Increasing in string order, hence without repeats. */
  predicate StrictlyAscending(s: seq<string>) {
    forall i, j :: 0 <= i < j < |s| ==> LexLess(s[i], s[j])
  }

  /** Decreasing in string order: newest snapshot first. */
  predicate StrictlyDescending(s: seq<string>) {
    forall i, j :: 0 <= i < j < |s| ==> LexLess(s[j], s[i])
  }

  lemma LeTransitive(a: string, b: string, c: string)
    requires LexLe(a, b) && LexLe(b, c)
    ensures LexLe(a, c)
  {
    if a != b && b != c {
      LexTransitive(a, b, c);
    }
  }

  /** Put `x` before the first element not below it. */
  function Insert(x: string, s: seq<string>): (r: seq<string>)
    ensures multiset(r) == multiset(s) + multiset{x}
  {
    if s == [] || !LexLess(s[0], x) then [x] + s
    else
      assert s == [s[0]] + s[1..];
      [s[0]] + Insert(x, s[1..])
  }

  /** Every element after the first of `Insert(x, s)` is `x` or an element of `s[1..]`. */
  lemma InsertTail(x: string, s: seq<string>)
    requires s != [] && LexLess(s[0], x)
    ensures Insert(x, s)[0] == s[0]
    ensures forall j :: 0 < j < |Insert(x, s)| ==> Insert(x, s)[j] == x || Insert(x, s)[j] in s[1..]
  {
    var t := Insert(x, s[1..]);
    assert Insert(x, s) == [s[0]] + t;
    forall j | 0 < j < |Insert(x, s)| ensures Insert(x, s)[j] == x || Insert(x, s)[j] in s[1..] {
      assert Insert(x, s)[j] == t[j - 1];
      assert t[j - 1] in multiset(t);
    }
  }

  lemma {:induction false} InsertSorted(x: string, s: seq<string>)
    requires Sorted(s)
    ensures Sorted(Insert(x, s))
  {
    var r := Insert(x, s);
    if s == [] || !LexLess(s[0], x) {
      if s != [] {
        LexTotalLe(x, s[0]);
        forall j | 0 < j < |r| ensures LexLe(x, r[j]) {
          if j > 1 { LeTransitive(x, s[0], r[j]); }
        }
      }
    } else {
      InsertSorted(x, s[1..]);
      InsertTail(x, s);
      forall j | 0 < j < |r| ensures LexLe(s[0], r[j]) {
        if r[j] != x {
          var m :| 0 <= m < |s[1..]| && s[1..][m] == r[j];
          assert s[m + 1] == r[j];
        }
      }
      assert r == [s[0]] + Insert(x, s[1..]);
    }
  }

  lemma {:induction false} InsertAscending(x: string, s: seq<string>)
    requires StrictlyAscending(s) && x !in s
    ensures StrictlyAscending(Insert(x, s))
  {
    var r := Insert(x, s);
    if s == [] || !LexLess(s[0], x) {
      if s != [] {
        LexTotal(x, s[0]);
        forall j | 0 < j < |r| ensures LexLess(x, r[j]) {
          if j > 1 { LexTransitive(x, s[0], r[j]); }
        }
      }
    } else {
      assert x !in s[1..];
      InsertAscending(x, s[1..]);
      InsertTail(x, s);
      forall j | 0 < j < |r| ensures LexLess(s[0], r[j]) {
        if r[j] != x {
          var m :| 0 <= m < |s[1..]| && s[1..][m] == r[j];
          assert s[m + 1] == r[j];
        }
      }
      assert r == [s[0]] + Insert(x, s[1..]);
    }
  }

  lemma LexTotalLe(a: string, b: string)
    requires !LexLess(b, a)
    ensures LexLe(a, b)
  {
    if a != b {
      LexTotal(a, b);
    }
  }

  /**
   * `Array.prototype.sort()` on strings: the same names, in non-decreasing
   * string order; increasing when no name repeats.
   */
  function Sort(s: seq<string>): (r: seq<string>)
    ensures multiset(r) == multiset(s)
    ensures Sorted(r)
    ensures Distinct(s) ==> StrictlyAscending(r)
  {
    if s == [] then []
    else
      assert s == [s[0]] + s[1..];
      var t := Sort(s[1..]);
      InsertSorted(s[0], t);
      if Distinct(s) then
        assert s[0] !in multiset(s[1..]);
        InsertAscending(s[0], t);
        Insert(s[0], t)
      else Insert(s[0], t)
  }

  /** Two increasing sequences with the same elements are the same sequence. */
  lemma {:induction false} AscendingUnique(a: seq<string>, b: seq<string>)
    requires StrictlyAscending(a) && StrictlyAscending(b) && Elems(a) == Elems(b)
    ensures a == b
    decreases |a|
  {
    assert a != [] ==> a[0] in Elems(a);
    assert b != [] ==> b[0] in Elems(b);
    if a != [] && b != [] {
      assert a[0] in Elems(b) && b[0] in Elems(a);
      if a[0] != b[0] {
        var i :| 0 <= i < |b| && b[i] == a[0];
        var j :| 0 <= j < |a| && a[j] == b[0];
        assert LexLess(b[0], a[0]) && LexLess(a[0], b[0]);
        LexAsymmetric(a[0], b[0]);
      }
      forall x | x in Elems(a[1..]) ensures x in Elems(b[1..]) {
        var i :| 1 <= i < |a| && a[i] == x;
        LexIrreflexive(x);
        assert x != a[0] && x in Elems(a);
        var k :| 0 <= k < |b| && b[k] == x;
        assert b[1..][k - 1] == x;
      }
      forall x | x in Elems(b[1..]) ensures x in Elems(a[1..]) {
        var i :| 1 <= i < |b| && b[i] == x;
        LexIrreflexive(x);
        assert x != b[0] && x in Elems(b);
        var k :| 0 <= k < |a| && a[k] == x;
        assert a[1..][k - 1] == x;
      }
      AscendingUnique(a[1..], b[1..]);
    }
  }

  lemma AscendingDistinct(s: seq<string>)
    requires StrictlyAscending(s)
    ensures Distinct(s)
  {
    forall i, j | 0 <= i < j < |s| ensures s[i] != s[j] {
      LexIrreflexive(s[i]);
    }
  }

  /** `.reverse()`. */
  function Reverse<T>(s: seq<T>): (r: seq<T>)
    ensures |r| == |s|
    ensures forall i :: 0 <= i < |s| ==> r[i] == s[|s| - 1 - i]
  {
    if s == [] then [] else Reverse(s[1..]) + [s[0]]
  }

  lemma ReverseDescending(s: seq<string>)
    requires StrictlyAscending(s)
    ensures StrictlyDescending(Reverse(s))
    ensures Elems(Reverse(s)) == Elems(s)
  {
    var r := Reverse(s);
    forall x | x in Elems(s) ensures x in Elems(r) {
      var i :| 0 <= i < |s| && s[i] == x;
      assert r[|s| - 1 - i] == x;
    }
  }

  /** `a` is `b` with some elements left out, the rest in the same order. */
  predicate IsSubsequence(a: seq<string>, b: seq<string>) {
    if a == [] then true
    else if b == [] then false
    else (a[0] == b[0] && IsSubsequence(a[1..], b[1..])) || IsSubsequence(a, b[1..])
  }

  /** What a subsequence holds, its source holds. */
  lemma {:induction false} SubsequenceElems(a: seq<string>, b: seq<string>)
    requires IsSubsequence(a, b)
    ensures Elems(a) <= Elems(b)
    ensures Distinct(b) ==> Distinct(a)
  {
    if a != [] {
      if a[0] == b[0] && IsSubsequence(a[1..], b[1..]) {
        SubsequenceElems(a[1..], b[1..]);
        assert a == [a[0]] + a[1..] && b == [b[0]] + b[1..];
        assert Elems(a) == {a[0]} + Elems(a[1..]) && Elems(b) == {b[0]} + Elems(b[1..]);
        assert Distinct(b) ==> b[0] !in Elems(b[1..]);
      } else {
        SubsequenceElems(a, b[1..]);
        assert b == [b[0]] + b[1..];
        assert Elems(b) == {b[0]} + Elems(b[1..]);
      }
    }
  }

  /** A sequence without repeats has as many elements as its length. */
  lemma {:induction false} DistinctCard(s: seq<string>)
    requires Distinct(s)
    ensures |Elems(s)| == |s|
  {
    if s != [] {
      DistinctCard(s[1..]);
      assert Elems(s) == Elems(s[1..]) + {s[0]};
      assert s[0] !in Elems(s[1..]);
    }
  }

  // ---------------------------------------------------------------------------
  // Snapshot folders
  // ---------------------------------------------------------------------------

  /** The names of the store's entries that are directories. */
  function DirNames(store: map<string, Node>): set<string> {
    set k | k in store && store[k].Dir?
  }

  /** `.filter(name => statSync(join(backupsDir, name)).isDirectory())`. */
  function DirsOnly(names: seq<string>, store: map<string, Node>): (r: seq<string>)
    requires Elems(names) <= store.Keys
    ensures Elems(r) == Elems(names) * DirNames(store)
    ensures Distinct(names) ==> Distinct(r)
    ensures multiset(r) <= multiset(names)
  {
    if names == [] then []
    else
      var rest := DirsOnly(names[1..], store);
      DirsOnlyStep(names, store, rest);
      if store[names[0]].Dir? then [names[0]] + rest else rest
  }

  /** The filter keeps the names it keeps in their `readdirSync` order. */
  lemma {:induction false} DirsOnlyInOrder(names: seq<string>, store: map<string, Node>)
    requires Elems(names) <= store.Keys
    ensures IsSubsequence(DirsOnly(names, store), names)
  {
    if names != [] {
      assert Elems(names[1..]) <= Elems(names) by {
        assert names == [names[0]] + names[1..];
      }
      DirsOnlyInOrder(names[1..], store);
      var rest := DirsOnly(names[1..], store);
      if store[names[0]].Dir? {
        assert ([names[0]] + rest)[1..] == rest;
      } else {
        SubsequenceSkip(rest, names);
      }
    }
  }

  /** Extending a subsequence's source at the front keeps it a subsequence. */
  lemma SubsequenceSkip(a: seq<string>, b: seq<string>)
    requires b != [] && IsSubsequence(a, b[1..])
    ensures IsSubsequence(a, b)
  {
  }

  /** One step of `DirsOnly`: the first name joins the filtered rest exactly when it names a directory. */
  lemma DirsOnlyStep(names: seq<string>, store: map<string, Node>, rest: seq<string>)
    requires names != [] && Elems(names) <= store.Keys
    requires Elems(rest) == Elems(names[1..]) * DirNames(store)
    requires Distinct(names[1..]) ==> Distinct(rest)
    requires multiset(rest) <= multiset(names[1..])
    ensures var r := if store[names[0]].Dir? then [names[0]] + rest else rest;
            && Elems(r) == Elems(names) * DirNames(store)
            && (Distinct(names) ==> Distinct(r))
            && multiset(r) <= multiset(names)
  {
    assert names == [names[0]] + names[1..];
    assert Elems(names) == {names[0]} + Elems(names[1..]);
    if store[names[0]].Dir? {
      assert Distinct(names) ==> names[0] !in Elems(names[1..]);
      assert Elems([names[0]] + rest) == {names[0]} + Elems(rest);
    }
  }

  /**
   * The snapshot folders of the store, oldest first: the directory entries,
   * sorted by name. Whatever order `readdirSync` returns, the result is the
   * one increasing enumeration of the directory names (`AscendingUnique`).
   */
  method Candidates(store: map<string, Node>) returns (backups: seq<string>)
    ensures StrictlyAscending(backups)
    ensures Elems(backups) == DirNames(store)
  {
    var names := ReadDir(store);
    var dirs := DirsOnly(names, store);
    backups := Sort(dirs);
    SameElems(backups, dirs);
  }

  /** A permutation has the same elements. */
  lemma SameElems(a: seq<string>, b: seq<string>)
    requires multiset(a) == multiset(b)
    ensures Elems(a) == Elems(b)
  {
    forall x ensures x in Elems(a) <==> x in Elems(b) {
      assert x in a <==> x in multiset(a);
      assert x in b <==> x in multiset(b);
    }
  }

  // ---------------------------------------------------------------------------
  // backup-info.json
  // ---------------------------------------------------------------------------

  /**
   * `JSON.parse(readFileSync(join(snapshot, 'backup-info.json')))` under
   * `try`: the record when the file exists and parses, `None` when it is
   * missing, is a directory (reading it throws) or does not parse.
   */
  function ReadInfo(snapshot: Node): (r: Option<Info>)
    ensures r.Some? <==>
              snapshot.Dir? && InfoFile in snapshot.entries && snapshot.entries[InfoFile].File?
              && snapshot.entries[InfoFile].json.Some?
    ensures r.Some? ==> r.value == snapshot.entries[InfoFile].json.value
  {
    if snapshot.Dir? && InfoFile in snapshot.entries && snapshot.entries[InfoFile].File? then
      snapshot.entries[InfoFile].json
    else None
  }
}
