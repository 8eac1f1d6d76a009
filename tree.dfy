/**
 * An abstract filesystem tree and the recursive primitives the backup scripts
 * share: reading a directory, `getDirSize`, `copyDir`, `copyFile`, `removeDir`
 * (with `unlinkSync` and `rmdirSync` beneath it).
 */
module Tree {
  import opened Wrappers

  /** The metadata record `backup-info.json` holds. A record without `files` has `files == None`. */
  datatype Info = Info(timestamp: string, date: string, description: string, files: Option<seq<string>>)

  /**
   * A file (its byte size, and what `JSON.parse` of its content yields as a
   * backup-info record: `None` when the content does not parse as one) or a
   * directory (its entries by name).
   */
  datatype Node = File(size: nat, json: Option<Info>) | Dir(entries: map<string, Node>)

  // ---------------------------------------------------------------------------
  // Sequences of names
  // ---------------------------------------------------------------------------

  function Elems<T>(s: seq<T>): set<T> {
    set x | x in s
  }

  predicate Distinct<T(==)>(s: seq<T>) {
    forall i, j :: 0 <= i < j < |s| ==> s[i] != s[j]
  }

  /**
   * `fs.readdirSync`: the names of a directory's entries, each once, in an
   * order the filesystem chooses (here: any order).
   */
  method ReadDir(entries: map<string, Node>) returns (names: seq<string>)
    ensures Distinct(names)
    ensures Elems(names) == entries.Keys
  {
    names := [];
    var rest := entries.Keys;
    while rest != {}
      invariant Distinct(names)
      invariant Elems(names) !! rest
      invariant Elems(names) + rest == entries.Keys
      decreases rest
    {
      var k :| k in rest;
      names := names + [k];
      rest := rest - {k};
    }
  }

  lemma ElemsPrefix<T>(s: seq<T>, i: nat)
    requires i < |s|
    ensures Elems(s[..i + 1]) == Elems(s[..i]) + {s[i]}
  {
    assert s[..i + 1] == s[..i] + [s[i]];
  }

  lemma DistinctAfter<T>(s: seq<T>, i: nat)
    requires Distinct(s) && i < |s|
    ensures s[i] !in Elems(s[..i])
  {
  }

  lemma DistinctTail<T>(s: seq<T>)
    requires Distinct(s) && s != []
    ensures Distinct(s[1..])
    ensures s[0] !in Elems(s[1..])
  {
    forall j | 0 <= j < |s| - 1 ensures s[1..][j] != s[0] {
      assert s[1..][j] == s[j + 1];
    }
  }

  // ---------------------------------------------------------------------------
  // Sizes
  // ---------------------------------------------------------------------------

  /** Some element of a non-empty set (the same one whenever asked). */
  ghost function Pick(s: set<string>): (x: string)
    requires s != {}
    ensures x in s
  {
    var x :| x in s; x
  }

  /** The number of bytes in all files of the tree. */
  ghost function Size(n: Node): nat
    decreases n, 1
  {
    match n
    case File(size, _) => size
    case Dir(entries) => SumSizes(n, entries.Keys)
  }

  /** The total size of the entries of directory `d` whose names are in `keys`. */
  ghost function SumSizes(d: Node, keys: set<string>): nat
    requires d.Dir? && keys <= d.entries.Keys
    decreases d, 0, keys
  {
    if keys == {} then 0
    else
      var k := Pick(keys);
      Size(d.entries[k]) + SumSizes(d, keys - {k})
  }

  /** The sum does not depend on the order entries are taken in: any entry can be taken out first. */
  lemma {:induction false} SumSizesSplit(d: Node, keys: set<string>, k: string)
    requires d.Dir? && keys <= d.entries.Keys && k in keys
    ensures SumSizes(d, keys) == Size(d.entries[k]) + SumSizes(d, keys - {k})
    decreases keys
  {
    var p := Pick(keys);
    if p != k {
      SumSizesSplit(d, keys - {p}, k);
      SumSizesSplit(d, keys - {k}, p);
      assert keys - {p} - {k} == keys - {k} - {p};
    }
  }

  /** An empty directory has size 0; a directory's size is its entry's size plus the rest. */
  lemma DirSize(entries: map<string, Node>, k: string)
    requires k in entries
    ensures Size(Dir(map[])) == 0
    ensures Size(Dir(entries)) == Size(entries[k]) + Size(Dir(entries - {k}))
  {
    var d := Dir(entries);
    var d' := Dir(entries - {k});
    SumSizesSplit(d, entries.Keys, k);
    SameSums(d, d', entries.Keys - {k});
    assert (entries - {k}).Keys == entries.Keys - {k};
  }

  lemma {:induction false} SameSums(d: Node, d': Node, keys: set<string>)
    requires d.Dir? && d'.Dir? && keys <= d.entries.Keys && keys <= d'.entries.Keys
    requires forall k :: k in keys ==> d.entries[k] == d'.entries[k]
    ensures SumSizes(d, keys) == SumSizes(d', keys)
    decreases keys
  {
    if keys != {} {
      var p := Pick(keys);
      SameSums(d, d', keys - {p});
    }
  }

  /**
   * `getDirSize`: walk the entries in directory order, adding each file's
   * size and each subdirectory's size. The result is the size of the tree,
   * whatever order the entries come in.
   */
  method GetDirSize(dir: Node) returns (size: nat)
    requires dir.Dir?
    ensures size == Size(dir)
    decreases dir
  {
    size := 0;
    var names := ReadDir(dir.entries);
    assert dir.entries.Keys - Elems(names[..0]) == dir.entries.Keys;
    for i := 0 to |names|
      invariant size + SumSizes(dir, dir.entries.Keys - Elems(names[..i])) == Size(dir)
    {
      var name := names[i];
      var child := dir.entries[name];
      if child.Dir? {
        var sub := GetDirSize(child);
        size := size + sub;
      } else {
        size := size + child.size;
      }
      var before := dir.entries.Keys - Elems(names[..i]);
      DistinctAfter(names, i);
      SumSizesSplit(dir, before, name);
      ElemsPrefix(names, i);
      assert dir.entries.Keys - Elems(names[..i + 1]) == before - {name};
    }
    assert names[..|names|] == names;
  }

  // ---------------------------------------------------------------------------
  // copyDir and copyFile
  // ---------------------------------------------------------------------------

  /** The entries of `d` when it holds a directory at `k`, else none. */
  function SubEntries(d: map<string, Node>, k: string): map<string, Node> {
    if k in d && d[k].Dir? then d[k].entries else map[]
  }

  /**
   * What `copyDir(src, dest)` leaves at `dest` when `dest` held `dst`: every
   * file of `src` copied over (replacing a file of the same name),
   * subdirectories merged recursively, and entries only `dst` has kept.
   */
  function Overlay(dst: map<string, Node>, src: Node): (r: map<string, Node>)
    requires src.Dir?
    ensures r.Keys == dst.Keys + src.entries.Keys
    decreases src, 1
  {
    map k | k in dst.Keys + src.entries.Keys :: OverlayEntry(dst, src, k)
  }

  /** The entry `k` after the copy. */
  function OverlayEntry(dst: map<string, Node>, src: Node, k: string): Node
    requires src.Dir? && k in dst.Keys + src.entries.Keys
    decreases src, 0
  {
    if k !in src.entries then dst[k]
    else if src.entries[k].File? then src.entries[k]
    else Dir(Overlay(SubEntries(dst, k), src.entries[k]))
  }

  /**
   * The copy does not trip over its own destination: wherever `src` and `dst`
   * share a name, both are files or both are directories that agree the same
   * way. Otherwise `copyFileSync` or the nested copy throws.
   */
  ghost predicate Compatible(dst: map<string, Node>, src: Node)
    requires src.Dir?
    decreases src
  {
    forall k :: k in dst && k in src.entries ==>
      && dst[k].Dir? == src.entries[k].Dir?
      && (src.entries[k].Dir? ==> Compatible(dst[k].entries, src.entries[k]))
  }

  /**
   * `copyDir(src, dest)`: create `dest` when missing (`dest == None`), then
   * for each entry of `src` in directory order copy a file with `copyFileSync`
   * or a subdirectory with a recursive `copyDir`. Returns the new entries of `dest`.
   */
  method CopyDir(src: Node, dest: Option<map<string, Node>>) returns (r: map<string, Node>)
    requires src.Dir?
    requires dest.Some? ==> Compatible(dest.value, src)
    ensures r == Overlay(dest.GetOr(map[]), src)
    decreases src
  {
    r := dest.GetOr(map[]);
    ghost var start := r;
    var names := ReadDir(src.entries);
    assert r == PartialOverlay(start, src, Elems(names[..0]));
    for i := 0 to |names|
      invariant r == PartialOverlay(start, src, Elems(names[..i]))
    {
      var name := names[i];
      ghost var done := Elems(names[..i]);
      DistinctAfter(names, i);
      ElemsPrefix(names, i);
      var child := src.entries[name];
      if child.Dir? {
        assert name in r ==> r[name] == start[name];
        var sub := CopyDir(child, if name in r then Some(r[name].entries) else None);
        assert SubEntries(start, name) == (if name in r then r[name].entries else map[]);
        r := r[name := Dir(sub)];
      } else {
        r := CopyFile(r, name, child);
      }
      PartialOverlayStep(start, src, done, name);
    }
    assert names[..|names|] == names;
    PartialOverlayDone(start, src);
  }

  /** The destination once the entries in `done` have been copied. */
  function PartialOverlay(dst: map<string, Node>, src: Node, done: set<string>): map<string, Node>
    requires src.Dir? && done <= src.entries.Keys
  {
    map k | k in dst.Keys + done :: if k in done then OverlayEntry(dst, src, k) else dst[k]
  }

  lemma PartialOverlayStep(dst: map<string, Node>, src: Node, done: set<string>, k: string)
    requires src.Dir? && done <= src.entries.Keys && k in src.entries && k !in done
    ensures PartialOverlay(dst, src, done + {k}) == PartialOverlay(dst, src, done)[k := OverlayEntry(dst, src, k)]
  {
  }

  lemma PartialOverlayDone(dst: map<string, Node>, src: Node)
    requires src.Dir?
    ensures PartialOverlay(dst, src, src.entries.Keys) == Overlay(dst, src)
  {
  }

  /**
   * `copyFile`/`copyFileSync` of a file to the entry `name` of a directory that
   * exists: the file lands there, replacing a file of that name, and nothing
   * else changes. Copying onto a directory throws.
   */
  function CopyFile(dir: map<string, Node>, name: string, file: Node): (r: map<string, Node>)
    requires file.File?
    requires name in dir ==> dir[name].File?
    ensures r.Keys == dir.Keys + {name}
    ensures r[name] == file
    ensures forall k :: k in dir && k != name ==> r[k] == dir[k]
  {
    dir[name := file]
  }

  /** Copying into a directory that did not exist reproduces the source exactly. */
  lemma {:induction false} OverlayFresh(src: Node)
    requires src.Dir?
    ensures Overlay(map[], src) == src.entries
    decreases src
  {
    forall k | k in src.entries && src.entries[k].Dir?
      ensures Overlay(map[], src.entries[k]) == src.entries[k].entries
    {
      OverlayFresh(src.entries[k]);
    }
  }

  /** `big` holds every file of `small` at the same place. */
  ghost predicate Covers(big: Node, small: Node)
    decreases small
  {
    match small
    case File(_, _) => big == small
    case Dir(entries) =>
      big.Dir? &&
      forall k :: k in entries ==> k in big.entries && Covers(big.entries[k], entries[k])
  }

  /**
   * After `copyDir`, the destination contains every entry of the source,
   * recursively, and keeps whatever the source does not name.
   */
  lemma {:induction false} OverlayCovers(dst: map<string, Node>, src: Node)
    requires src.Dir?
    ensures Covers(Dir(Overlay(dst, src)), src)
    ensures forall k :: k in dst && k !in src.entries ==> Overlay(dst, src)[k] == dst[k]
    decreases src
  {
    var r := Overlay(dst, src);
    forall k | k in src.entries
      ensures Covers(r[k], src.entries[k])
    {
      assert r[k] == OverlayEntry(dst, src, k);
      if src.entries[k].Dir? {
        OverlayCovers(SubEntries(dst, k), src.entries[k]);
      }
    }
  }

  // ---------------------------------------------------------------------------
  // removeDir
  // ---------------------------------------------------------------------------

  /** `fs.unlinkSync` of the file `name` in a directory; unlinking a directory throws. */
  function Unlink(dir: map<string, Node>, name: string): (r: map<string, Node>)
    requires name in dir && dir[name].File?
    ensures r.Keys == dir.Keys - {name}
    ensures forall k :: k in r ==> r[k] == dir[k]
  {
    dir - {name}
  }

  /** `fs.rmdirSync`: only an empty directory can be removed. */
  function Rmdir(dir: map<string, Node>, name: string): (r: map<string, Node>)
    requires name in dir && dir[name] == Dir(map[])
    ensures r.Keys == dir.Keys - {name}
    ensures forall k :: k in r ==> r[k] == dir[k]
  {
    dir - {name}
  }

  /**
   * `removeDir` of entry `name` of a directory: nothing when it does not exist;
   * otherwise unlink its files and remove its subdirectories recursively,
   * entry by entry, then `rmdir` the now empty directory. The whole subtree
   * goes and every other entry stays.
   */
  method RemoveDir(parent: map<string, Node>, name: string) returns (r: map<string, Node>)
    requires name in parent ==> parent[name].Dir?
    ensures r == parent - {name}
    decreases if name in parent then parent[name] else Dir(map[])
  {
    if name !in parent {
      return parent;
    }
    var dir := parent[name];
    var contents := dir.entries;
    var names := ReadDir(contents);
    for i := 0 to |names|
      invariant contents == dir.entries - Elems(names[..i])
    {
      var entry := names[i];
      DistinctAfter(names, i);
      ElemsPrefix(names, i);
      if contents[entry].Dir? {
        contents := RemoveDir(contents, entry);
      } else {
        contents := Unlink(contents, entry);
      }
    }
    assert names[..|names|] == names;
    r := Rmdir(parent[name := Dir(contents)], name);
  }
}
