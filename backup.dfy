/**
 * `backup`: copy the configured project paths into a new snapshot folder of
 * the store named after the current time, and write the snapshot's
 * `backup-info.json` record.
 */
module Backup {
  import opened Wrappers
  import opened Text
  import opened Tree
  import opened Store

  /** The project paths a snapshot captures, in this order. */
  const BackupPaths: seq<string> := [
    "src", "index.html", "package.json", "tailwind.config.js",
    "vite.config.js", "postcss.config.js", "eslint.config.js"
  ]

  lemma BackupPathsDistinct()
    ensures Distinct(BackupPaths)
    ensures InfoFile !in BackupPaths
  {
  }

  // ---------------------------------------------------------------------------
  // The folder name
  // ---------------------------------------------------------------------------

  /** `.replace(/[:.]/g, '-')`. */
  function ReplaceSeparators(s: string): (r: string)
    ensures |r| == |s|
    ensures forall i :: 0 <= i < |s| ==> r[i] == (if s[i] == ':' || s[i] == '.' then '-' else s[i])
  {
    if s == [] then [] else [if s[0] == ':' || s[0] == '.' then '-' else s[0]] + ReplaceSeparators(s[1..])
  }

  /** The timestamp part of the folder name: separators replaced, then `.slice(0, 19)`. */
  function Timestamp(iso: string): (t: string)
    ensures |t| == if |iso| < 19 then |iso| else 19
    ensures forall i :: 0 <= i < |t| ==> t[i] == (if iso[i] == ':' || iso[i] == '.' then '-' else iso[i])
  {
    var r := ReplaceSeparators(iso);
    if |r| <= 19 then r else r[..19]
  }

  /** `backup-${timestamp}` for the instant `iso` (what `toISOString` returned). */
  function FolderName(iso: string): (name: string)
    ensures |name| >= 7 && name[..7] == "backup-" && name[7..] == Timestamp(iso)
    ensures ':' !in name && '.' !in name
  {
    var t := Timestamp(iso);
    var name := "backup-" + t;
    assert name[..7] == "backup-" && name[7..] == t;
    assert forall i :: 0 <= i < |name| ==> name[i] != ':' && name[i] != '.' by {
      forall i | 0 <= i < |name| ensures name[i] != ':' && name[i] != '.' {
        if i >= 7 {
          assert name[i] == t[i - 7];
        }
      }
    }
    name
  }

  predicate IsDigit(c: char) {
    '0' <= c <= '9'
  }

  predicate AllDigits(s: string) {
    forall i :: 0 <= i < |s| ==> IsDigit(s[i])
  }

  /** `iso` has the form `YYYY-MM-DDTHH:mm:ss.sssZ` that `toISOString` returns for years 0 to 9999. */
  predicate IsIsoInstant(iso: string) {
    && |iso| == 24
    && AllDigits(iso[0..4]) && iso[4] == '-' && AllDigits(iso[5..7]) && iso[7] == '-'
    && AllDigits(iso[8..10]) && iso[10] == 'T' && AllDigits(iso[11..13]) && iso[13] == ':'
    && AllDigits(iso[14..16]) && iso[16] == ':' && AllDigits(iso[17..19]) && iso[19] == '.'
    && AllDigits(iso[20..23]) && iso[23] == 'Z'
  }

  /** The calendar fields of an instant, to the second. */
  datatype Second = Second(year: nat, month: nat, day: nat, hour: nat, minute: nat, second: nat)

  function SecondOf(iso: string): Second
    requires IsIsoInstant(iso)
  {
    Second(DigitsValue(iso[0..4], 10), DigitsValue(iso[5..7], 10), DigitsValue(iso[8..10], 10),
           DigitsValue(iso[11..13], 10), DigitsValue(iso[14..16], 10), DigitsValue(iso[17..19], 10))
  }

  /** Chronological order at second granularity. */
  predicate Before(a: Second, b: Second) {
    || a.year < b.year
    || (a.year == b.year && (a.month < b.month
    || (a.month == b.month && (a.day < b.day
    || (a.day == b.day && (a.hour < b.hour
    || (a.hour == b.hour && (a.minute < b.minute
    || (a.minute == b.minute && a.second < b.second)))))))))
  }

  /** The folder name of a well-formed instant is `backup-YYYY-MM-DDTHH-mm-ss`. */
  lemma FolderNameShape(iso: string)
    requires IsIsoInstant(iso)
    ensures |FolderName(iso)| == 26
    ensures forall i :: 0 <= i < 19 ==> FolderName(iso)[7 + i] == if i == 13 || i == 16 then '-' else iso[i]
  {
    forall i | 0 <= i < 19 && i != 4 && i != 7 && i != 10 && i != 13 && i != 16
      ensures IsDigit(iso[i])
    {
      DigitAt(iso, i);
    }
  }

  /** Where the instant holds a digit. */
  lemma DigitAt(iso: string, i: nat)
    requires IsIsoInstant(iso) && i < 19 && i != 4 && i != 7 && i != 10 && i != 13 && i != 16
    ensures IsDigit(iso[i])
  {
    if i < 4 { assert iso[0..4][i] == iso[i]; }
    else if i < 7 { assert iso[5..7][i - 5] == iso[i]; }
    else if i < 10 { assert iso[8..10][i - 8] == iso[i]; }
    else if i < 13 { assert iso[11..13][i - 11] == iso[i]; }
    else if i < 16 { assert iso[14..16][i - 14] == iso[i]; }
    else { assert iso[17..19][i - 17] == iso[i]; }
  }

  /** Two runs within the same second (same first 19 characters of the instant) pick the same folder. */
  lemma SameSecondSameName(a: string, b: string)
    requires |a| >= 19 && |b| >= 19 && a[..19] == b[..19]
    ensures FolderName(a) == FolderName(b)
  {
    assert forall i :: 0 <= i < 19 ==> a[i] == a[..19][i] && b[i] == b[..19][i];
  }

  /**
   * Sorting folder names as strings sorts the snapshots by time: one name is
   * below another exactly when its second is earlier, and two names are equal
   * exactly when the seconds are.
   */
  lemma NameOrderIsTimeOrder(a: string, b: string)
    requires IsIsoInstant(a) && IsIsoInstant(b)
    ensures LexLess(FolderName(a), FolderName(b)) <==> Before(SecondOf(a), SecondOf(b))
    ensures FolderName(a) == FolderName(b) <==> SecondOf(a) == SecondOf(b)
  {
    var t, u := Timestamp(a), Timestamp(b);
    LexConcat("backup-", t, "backup-", u);
    assert "backup-" + t == "backup-" + u <==> t == u by {
      assert ("backup-" + t)[7..] == t && ("backup-" + u)[7..] == u;
    }
    TimestampOrder(a, b);
  }

  lemma TimestampOrder(a: string, b: string)
    requires IsIsoInstant(a) && IsIsoInstant(b)
    ensures LexLess(Timestamp(a), Timestamp(b)) <==> Before(SecondOf(a), SecondOf(b))
    ensures Timestamp(a) == Timestamp(b) <==> SecondOf(a) == SecondOf(b)
  {
    TimestampFields(a);
    TimestampFields(b);
    StampOrder(Timestamp(a), Timestamp(b));
  }

  /** The fields of an instant reappear at the same places of its timestamp. */
  lemma TimestampFields(a: string)
    requires IsIsoInstant(a)
    ensures IsStamp(Timestamp(a)) && StampSecond(Timestamp(a)) == SecondOf(a)
  {
    var t := Timestamp(a);
    FolderNameShape(a);
    assert t[0..4] == a[0..4];
    assert t[5..7] == a[5..7];
    assert t[8..10] == a[8..10];
    assert t[11..13] == a[11..13];
    assert t[14..16] == a[14..16];
    assert t[17..19] == a[17..19];
  }

  /** `YYYY-MM-DDTHH-mm-ss`: the form of the timestamp part of a folder name. */
  predicate IsStamp(t: string) {
    && |t| == 19
    && AllDigits(t[0..4]) && t[4] == '-' && AllDigits(t[5..7]) && t[7] == '-'
    && AllDigits(t[8..10]) && t[10] == 'T' && AllDigits(t[11..13]) && t[13] == '-'
    && AllDigits(t[14..16]) && t[16] == '-' && AllDigits(t[17..19])
  }

  function StampSecond(t: string): Second
    requires IsStamp(t)
  {
    Second(DigitsValue(t[0..4], 10), DigitsValue(t[5..7], 10), DigitsValue(t[8..10], 10),
           DigitsValue(t[11..13], 10), DigitsValue(t[14..16], 10), DigitsValue(t[17..19], 10))
  }

  lemma StampOrder(t: string, u: string)
    requires IsStamp(t) && IsStamp(u)
    ensures LexLess(t, u) <==> Before(StampSecond(t), StampSecond(u))
    ensures t == u <==> StampSecond(t) == StampSecond(u)
  {
    assert t == t[0..] && u == u[0..];
    FieldStep(t, u, 0, 4);
    SeparatorStep(t, u, 4);
    FieldStep(t, u, 5, 2);
    SeparatorStep(t, u, 7);
    FieldStep(t, u, 8, 2);
    SeparatorStep(t, u, 10);
    TimeOrder(t, u);
  }

  lemma TimeOrder(t: string, u: string)
    requires IsStamp(t) && IsStamp(u)
    ensures LexLess(t[11..], u[11..]) <==>
              var x, y := StampSecond(t), StampSecond(u);
              x.hour < y.hour || (x.hour == y.hour && (x.minute < y.minute || (x.minute == y.minute && x.second < y.second)))
    ensures t[11..] == u[11..] <==>
              var x, y := StampSecond(t), StampSecond(u);
              x.hour == y.hour && x.minute == y.minute && x.second == y.second
  {
    FieldStep(t, u, 11, 2);
    SeparatorStep(t, u, 13);
    MinuteOrder(t, u);
  }

  lemma MinuteOrder(t: string, u: string)
    requires IsStamp(t) && IsStamp(u)
    ensures LexLess(t[14..], u[14..]) <==>
              var x, y := StampSecond(t), StampSecond(u);
              x.minute < y.minute || (x.minute == y.minute && x.second < y.second)
    ensures t[14..] == u[14..] <==>
              var x, y := StampSecond(t), StampSecond(u);
              x.minute == y.minute && x.second == y.second
  {
    FieldStep(t, u, 14, 2);
    SeparatorStep(t, u, 16);
    FieldStep(t, u, 17, 2);
    assert t[19..] == [] && u[19..] == [];
  }

  /** A digit field of width `w` at `k` decides the order of the suffixes from `k` unless both fields are equal. */
  lemma FieldStep(t: string, u: string, k: nat, w: nat)
    requires |t| == |u| && k + w <= |t|
    requires AllDigits(t[k..k + w]) && AllDigits(u[k..k + w])
    ensures LexLess(t[k..], u[k..]) <==>
              || DigitsValue(t[k..k + w], 10) < DigitsValue(u[k..k + w], 10)
              || (DigitsValue(t[k..k + w], 10) == DigitsValue(u[k..k + w], 10) && LexLess(t[k + w..], u[k + w..]))
    ensures t[k..] == u[k..] <==>
              DigitsValue(t[k..k + w], 10) == DigitsValue(u[k..k + w], 10) && t[k + w..] == u[k + w..]
  {
    var f, g := t[k..k + w], u[k..k + w];
    assert t[k..] == f + t[k + w..] && u[k..] == g + u[k + w..];
    DigitsOrder(f, g);
    LexConcat(f, t[k + w..], g, u[k + w..]);
    if t[k..] == u[k..] {
      assert f == t[k..][..w] && g == u[k..][..w];
    }
  }

  /** A separator common to both strings is skipped by the comparison. */
  lemma SeparatorStep(t: string, u: string, k: nat)
    requires k < |t| && k < |u| && t[k] == u[k]
    ensures LexLess(t[k..], u[k..]) <==> LexLess(t[k + 1..], u[k + 1..])
    ensures t[k..] == u[k..] <==> t[k + 1..] == u[k + 1..]
  {
    assert t[k..][1..] == t[k + 1..] && u[k..][1..] == u[k + 1..];
    assert t[k..] == [t[k]] + t[k + 1..] && u[k..] == [u[k]] + u[k + 1..];
  }

  /** `10^n`. */
  function Pow10(n: nat): (p: nat)
    ensures p >= 1
  {
    if n == 0 then 1 else 10 * Pow10(n - 1)
  }

  lemma {:induction false} DigitsPrepend(c: char, r: string)
    ensures DigitsValue([c] + r, 10) == DigitValue(c) * Pow10(|r|) + DigitsValue(r, 10)
    decreases |r|
  {
    if r == [] {
      assert ([c] + r)[..0] == [];
    } else {
      var r' := r[..|r| - 1];
      DigitsPrepend(c, r');
      assert ([c] + r)[..|r|] == [c] + r';
      var a: int, p: int, d: int, e: int := DigitValue(c), Pow10(|r'|), DigitsValue(r', 10), DigitValue(r[|r| - 1]);
      assert DigitsValue([c] + r, 10) == (a * p + d) * 10 + e;
      assert Pow10(|r|) == p * 10 && DigitsValue(r, 10) == d * 10 + e;
      ShiftDigit(a, p, d, e);
    }
  }

  lemma ShiftDigit(a: int, p: int, d: int, e: int)
    ensures (a * p + d) * 10 + e == a * (p * 10) + (d * 10 + e)
  {
  }

  lemma {:induction false} DigitsBound(r: string)
    requires forall i :: 0 <= i < |r| ==> IsDigit(r[i])
    ensures DigitsValue(r, 10) < Pow10(|r|)
  {
    if r != [] {
      var r' := r[..|r| - 1];
      DigitsBound(r');
      assert DigitValue(r[|r| - 1]) <= 9;
      assert DigitsValue(r, 10) == DigitsValue(r', 10) * 10 + DigitValue(r[|r| - 1]);
      assert DigitsValue(r', 10) * 10 <= (Pow10(|r'|) - 1) * 10;
    }
  }

  lemma HeadDecides(x: nat, y: nat, p: nat, r: nat, q: nat)
    requires x < y && r < p
    ensures x * p + r < y * p + q
  {
    assert (x + 1) * p <= y * p;
  }

  /** Digit strings of one width compare as strings the way their values compare. */
  lemma {:induction false} DigitsOrder(a: string, b: string)
    requires |a| == |b| && (forall i :: 0 <= i < |a| ==> IsDigit(a[i])) && (forall i :: 0 <= i < |b| ==> IsDigit(b[i]))
    ensures LexLess(a, b) <==> DigitsValue(a, 10) < DigitsValue(b, 10)
    ensures a == b <==> DigitsValue(a, 10) == DigitsValue(b, 10)
  {
    if a != [] {
      var a', b' := a[1..], b[1..];
      var p := Pow10(|a'|);
      assert a == [a[0]] + a' && b == [b[0]] + b';
      DigitsPrepend(a[0], a');
      DigitsPrepend(b[0], b');
      DigitsBound(a');
      DigitsBound(b');
      DigitsOrder(a', b');
      var x, y := DigitValue(a[0]), DigitValue(b[0]);
      if x < y {
        HeadDecides(x, y, p, DigitsValue(a', 10), DigitsValue(b', 10));
      } else if y < x {
        HeadDecides(y, x, p, DigitsValue(b', 10), DigitsValue(a', 10));
      }
      assert x == y <==> a[0] == b[0];
      assert x < y <==> a[0] < b[0];
    } else {
      assert b == [];
    }
  }

  // ---------------------------------------------------------------------------
  // The metadata record
  // ---------------------------------------------------------------------------

  /** `process.argv[2] || 'Manual backup'`: the argument unless it is missing or empty. */
  function Description(arg: Option<string>): (d: string)
    ensures arg.Some? && arg.value != [] ==> d == arg.value
    ensures arg.None? || arg == Some("") ==> d == "Manual backup"
  {
    if arg.Some? && arg.value != "" then arg.value else "Manual backup"
  }

  /** `BACKUP_PATHS.filter(p => existsSync(join(projectRoot, p)))` over a list of paths. */
  function Present(paths: seq<string>, project: map<string, Node>): (r: seq<string>)
    ensures forall p :: p in r <==> p in paths && p in project
  {
    if paths == [] then []
    else if paths[0] in project then [paths[0]] + Present(paths[1..], project)
    else Present(paths[1..], project)
  }

  /** The paths kept are in the order given. */
  lemma {:induction false} PresentInOrder(paths: seq<string>, project: map<string, Node>)
    ensures IsSubsequence(Present(paths, project), paths)
  {
    if paths != [] {
      PresentInOrder(paths[1..], project);
    }
  }

  /** The record's `files`: the configured paths that exist, in configured order. */
  function RecordedFiles(project: map<string, Node>): (files: seq<string>)
    ensures forall p :: p in files <==> p in BackupPaths && p in project
  {
    Present(BackupPaths, project)
  }

  /** The record lists the existing paths in the configured order. */
  lemma RecordedInOrder(project: map<string, Node>)
    ensures IsSubsequence(RecordedFiles(project), BackupPaths)
  {
    PresentInOrder(BackupPaths, project);
  }

  // ---------------------------------------------------------------------------
  // The snapshot
  // ---------------------------------------------------------------------------

  /** What copying the project entry `k` leaves at `k` of a snapshot that held `prev`. */
  function CopyEntry(prev: map<string, Node>, project: map<string, Node>, k: string): Node
    requires k in project
  {
    if project[k].Dir? then Dir(Overlay(SubEntries(prev, k), project[k])) else project[k]
  }

  /** The snapshot once the existing paths among `paths` have been copied into `prev`. */
  function Captured(prev: map<string, Node>, project: map<string, Node>, paths: set<string>): (r: map<string, Node>)
    ensures r.Keys == prev.Keys + (paths * project.Keys)
  {
    map k | k in prev.Keys + (paths * project.Keys) :: if k in paths && k in project then CopyEntry(prev, project, k) else prev[k]
  }

  /**
   * Copying the configured paths into a folder that holds `prev` does not
   * throw: wherever the folder already has an entry of a configured path (a
   * second run in the same second), it is of the same kind as the project's.
   */
  ghost predicate CanCopy(prev: map<string, Node>, project: map<string, Node>) {
    forall k :: k in BackupPaths && k in project && k in prev ==>
      && prev[k].Dir? == project[k].Dir?
      && (project[k].Dir? ==> Compatible(prev[k].entries, project[k]))
  }

  /**
   * A run does not throw: a folder of that name, if any, is a directory that
   * the paths can be copied into and whose `backup-info.json`, if any, is a file.
   */
  ghost predicate CanCreate(backups: Option<map<string, Node>>, name: string, project: map<string, Node>) {
    var store := backups.GetOr(map[]);
    name in store ==>
      && store[name].Dir?
      && (InfoFile in store[name].entries ==> store[name].entries[InfoFile].File?)
      && CanCopy(store[name].entries, project)
  }

  /**
   * One turn of the copy loop: when the path exists, `copyDir` a directory
   * or `copyFile` a file to the same name in the snapshot folder.
   */
  method CopyPath(project: map<string, Node>, snapshot: map<string, Node>, p: string,
                  ghost prev: map<string, Node>, ghost done: set<string>) returns (r: map<string, Node>)
    requires p in BackupPaths && p !in done && CanCopy(prev, project)
    requires snapshot == Captured(prev, project, done)
    ensures r == Captured(prev, project, done + {p})
  {
    r := snapshot;
    if p in project {
      assert p in snapshot ==> snapshot[p] == prev[p];
      if project[p].Dir? {
        r := CopyDir(project[p], if p in snapshot then Some(snapshot[p].entries) else None);
        r := snapshot[p := Dir(r)];
      } else {
        r := CopyFile(snapshot, p, project[p]);
      }
    }
    CapturedStep(prev, project, done, p);
  }

  /** The record `backup-info.json` holds. */
  function InfoFor(project: map<string, Node>, isoAtWrite: string, localeDate: string, arg: Option<string>): (info: Info)
    ensures info.files == Some(RecordedFiles(project)) && info.description == Description(arg)
    ensures info.timestamp == isoAtWrite && info.date == localeDate
  {
    Info(isoAtWrite, localeDate, Description(arg), Some(RecordedFiles(project)))
  }

  /** The snapshot folder after a run that found it holding `prev`. */
  function Snapshot(prev: map<string, Node>, project: map<string, Node>, info: Info, infoBytes: nat): map<string, Node> {
    Captured(prev, project, Elems(BackupPaths))[InfoFile := File(infoBytes, Some(info))]
  }

  /** The store after a run that names its folder `name` and writes `info`. */
  function AfterBackup(backups: Option<map<string, Node>>, name: string, project: map<string, Node>,
                       info: Info, infoBytes: nat): map<string, Node> {
    var store := backups.GetOr(map[]);
    store[name := Dir(Snapshot(SubEntries(store, name), project, info, infoBytes))]
  }

  /**
   * A run of `backup`. The clock is read three times: `isoAtStart` names the
   * folder, `isoAtWrite` and `localeDate` go into the record; `arg` is
   * `process.argv[2]` and `infoBytes` the length of the record's JSON text.
   * The store is created when missing, the folder when new, the existing
   * configured paths are copied in, and the record is written last.
   */
  method CreateBackup(w: Workspace, isoAtStart: string, isoAtWrite: string, localeDate: string,
                      arg: Option<string>, infoBytes: nat) returns (name: string)
    requires CanCreate(w.backups, FolderName(isoAtStart), w.project)
    modifies w
    ensures name == FolderName(isoAtStart)
    ensures w.project == old(w.project)
    ensures w.backups == Some(AfterBackup(old(w.backups), name, w.project,
                                          InfoFor(w.project, isoAtWrite, localeDate, arg), infoBytes))
  {
    name := FolderName(isoAtStart);
    var store, prev := OpenFolder(w, name);
    CopyAll(w, store, name, prev);
    WriteInfo(w, store, name, InfoFor(w.project, isoAtWrite, localeDate, arg), infoBytes, prev);
  }

  /**
   * `mkdirSync(backupsDir)` when the store is missing, then
   * `mkdirSync(backupDir, { recursive: true })`, which leaves an existing
   * folder as it is. Returns the store and the folder's entries as found.
   */
  method OpenFolder(w: Workspace, name: string) returns (store: map<string, Node>, prev: map<string, Node>)
    requires w.backups.Some? && name in w.backups.value ==> w.backups.value[name].Dir?
    modifies w
    ensures store == old(w.backups).GetOr(map[]) && prev == SubEntries(store, name)
    ensures w.backups == Some(store[name := Dir(prev)])
    ensures w.project == old(w.project)
  {
    if w.backups.None? {
      w.backups := Some(map[]);
    }
    store := w.backups.value;
    prev := if name in store then store[name].entries else map[];
    w.backups := Some(store[name := Dir(prev)]);
  }

  /** `writeFileSync` of the record into the folder, replacing an older record. */
  method WriteInfo(w: Workspace, store: map<string, Node>, name: string, info: Info, infoBytes: nat,
                   ghost prev: map<string, Node>)
    requires w.backups == Some(store[name := Dir(Captured(prev, w.project, Elems(BackupPaths)))])
    modifies w
    ensures w.project == old(w.project)
    ensures w.backups == Some(store[name := Dir(Snapshot(prev, w.project, info, infoBytes))])
  {
    var folder := w.backups.value[name].entries;
    assert folder == Captured(prev, w.project, Elems(BackupPaths));
    ghost var written := Snapshot(prev, w.project, info, infoBytes);
    assert folder[InfoFile := File(infoBytes, Some(info))] == written;
    assert w.backups.value[name := Dir(written)] == store[name := Dir(written)];
    w.backups := Some(w.backups.value[name := Dir(folder[InfoFile := File(infoBytes, Some(info))])]);
  }

  /** The copy loop over the configured paths, into the snapshot folder `name` of the store. */
  method CopyAll(w: Workspace, store: map<string, Node>, name: string, ghost prev: map<string, Node>)
    requires w.backups == Some(store[name := Dir(prev)])
    requires CanCopy(prev, w.project)
    modifies w
    ensures w.project == old(w.project)
    ensures w.backups == Some(store[name := Dir(Captured(prev, w.project, Elems(BackupPaths)))])
  {
    var snapshot := w.backups.value[name].entries;
    BackupPathsDistinct();
    assert snapshot == Captured(prev, w.project, Elems(BackupPaths[..0]));
    for i := 0 to |BackupPaths|
      invariant w.project == old(w.project)
      invariant snapshot == Captured(prev, w.project, Elems(BackupPaths[..i]))
      invariant w.backups == Some(store[name := Dir(snapshot)])
    {
      DistinctAfter(BackupPaths, i);
      ElemsPrefix(BackupPaths, i);
      snapshot := CopyPath(w.project, snapshot, BackupPaths[i], prev, Elems(BackupPaths[..i]));
      w.backups := Some(store[name := Dir(snapshot)]);
    }
    assert BackupPaths[..|BackupPaths|] == BackupPaths;
  }

  lemma CapturedStep(prev: map<string, Node>, project: map<string, Node>, done: set<string>, p: string)
    requires p !in done
    ensures Captured(prev, project, done + {p}) ==
              if p in project then Captured(prev, project, done)[p := CopyEntry(prev, project, p)]
              else Captured(prev, project, done)
  {
  }

  /**
   * A snapshot taken into a fresh folder holds exactly the configured paths
   * that exist, each an exact copy of the project's entry, and the record.
   */
  lemma FreshSnapshot(project: map<string, Node>, info: Info, infoBytes: nat)
    ensures Snapshot(map[], project, info, infoBytes).Keys == Elems(RecordedFiles(project)) + {InfoFile}
    ensures forall k :: k in project && k in BackupPaths ==> Snapshot(map[], project, info, infoBytes)[k] == project[k]
    ensures Snapshot(map[], project, info, infoBytes)[InfoFile] == File(infoBytes, Some(info))
  {
    BackupPathsDistinct();
    forall k | k in project && k in BackupPaths && project[k].Dir?
      ensures Overlay(map[], project[k]) == project[k].entries
    {
      OverlayFresh(project[k]);
    }
  }

  /**
   * A run into a folder that already exists (a second run within the same
   * second) keeps everything the folder held and covers every entry the
   * project has at a configured path.
   */
  lemma SameSecondMerges(prev: map<string, Node>, project: map<string, Node>, info: Info, infoBytes: nat)
    ensures forall k :: k in prev && k != InfoFile ==> k in Snapshot(prev, project, info, infoBytes)
    ensures forall k :: k in prev && k != InfoFile && (k !in BackupPaths || k !in project) ==>
              Snapshot(prev, project, info, infoBytes)[k] == prev[k]
    ensures forall k :: k in project && k in BackupPaths ==>
              Covers(Snapshot(prev, project, info, infoBytes)[k], project[k])
  {
    BackupPathsDistinct();
    forall k | k in project && k in BackupPaths
      ensures Covers(Snapshot(prev, project, info, infoBytes)[k], project[k])
    {
      if project[k].Dir? {
        OverlayCovers(SubEntries(prev, k), project[k]);
      } else {
        CoversSelf(project[k]);
      }
    }
  }

  lemma CoversSelf(n: Node)
    ensures Covers(n, n)
  {
  }
}
