/**
 * The materialiser, `create_structure` (main.py:12-22), over an abstract
 * file system: a map from a path (a sequence of name segments, the root of
 * the run being `[]` or any other base) to a directory or a file's text.
 *
 * `Desired(base, structure)` is what the structure describes below `base`.
 * The method `CreateStructure` is proved to leave the file system at
 * `Desired(base, structure) + old state`.  In Dafny's map union the right
 * operand wins, so every path that existed before keeps its old item and
 * every described path that did not exist gets the described one.  The
 * lemmas below derive from that: nothing is overwritten, a second run
 * changes nothing, and from an empty base every described path exists with
 * its described kind and contents.
 */
module Materialize {
  import opened Tree

  /** `os.path.join(base, name)` for a single-segment name appends one segment. */
  type Path = seq<string>

  datatype Item = DirItem | FileItem(text: string)

  /** What a value of the structure asks for at its path. */
  function ItemOf(n: Node): Item
  {
    match n
    case Dir(_) => DirItem
    case File(text) => FileItem(text)
  }

  function Parent(p: Path): Path
    requires p != []
  {
    p[..|p| - 1]
  }

  /** q lies below base (not at base itself). */
  predicate StrictlyUnder(base: Path, q: Path)
  {
    |base| < |q| && q[..|base|] == base
  }

  /** A file system is a tree: the parent of every path is an existing directory. */
  ghost predicate Consistent(fs: map<Path, Item>)
  {
    forall p :: p in fs && p != [] ==> Parent(p) in fs && fs[Parent(p)] == DirItem
  }

  /**
   * The paths the structure describes below `base`, each with the item it
   * asks for.  Built from the last entry backwards, so that when two entries
   * share a name (which a dict does not allow) the earlier one wins, as it
   * does on disk.
   */
  function Desired(base: Path, es: seq<Entry>): map<Path, Item>
    decreases es
  {
    if es == [] then map[]
    else EntryDesired(base, es[|es| - 1]) + Desired(base, es[..|es| - 1])
  }

  /** What one entry describes: its own path, and for a mapping everything below it. */
  function EntryDesired(base: Path, e: Entry): map<Path, Item>
    decreases e
  {
    var path := base + [e.name];
    match e.value
    case Dir(children) => Desired(path, children)[path := DirItem]
    case File(text) => map[path := FileItem(text)]
  }

  /**
   * The source crashes when it has to recurse into a path that exists as a
   * file: the first child of a non-empty mapping then cannot be created.
   * This predicate excludes that case, at every depth.
   */
  predicate NoFileInTheWay(fs: map<Path, Item>, base: Path, es: seq<Entry>)
    decreases es
  {
    forall i :: 0 <= i < |es| && es[i].value.Dir? ==>
      var path := base + [es[i].name];
      (es[i].value.entries != [] && path in fs ==> fs[path] == DirItem) &&
      NoFileInTheWay(fs, path, es[i].value.entries)
  }

  /** Every entry of the structure is present at its path with the kind and contents it asks for. */
  predicate Realizes(fs: map<Path, Item>, base: Path, es: seq<Entry>)
    decreases es
  {
    forall i :: 0 <= i < |es| ==>
      var path := base + [es[i].name];
      path in fs && fs[path] == ItemOf(es[i].value) &&
      (es[i].value.Dir? ==> Realizes(fs, path, es[i].value.entries))
  }

  /** The file system the script runs against. */
  class FileSystem {
    var entries: map<Path, Item>

    ghost predicate Valid()
      reads this
    {
      Consistent(entries)
    }

    /** A file system holding exactly `initial`, which must already be a tree. */
    constructor (initial: map<Path, Item>)
      requires Consistent(initial)
      ensures Valid() && entries == initial
    {
      entries := initial;
    }

    /** `os.path.exists(p)`. */
    method Exists(p: Path) returns (b: bool)
      ensures b <==> p in entries
    {
      b := p in entries;
    }

    /**
     * `os.makedirs(p)` where the parent of p is already a directory (the only
     * way the materialiser calls it): p must not exist yet and becomes an
     * empty directory.
     */
    method MakeDirs(p: Path)
      requires Valid()
      requires p != [] && p !in entries
      requires Parent(p) in entries && entries[Parent(p)] == DirItem
      modifies this
      ensures Valid()
      ensures entries == old(entries)[p := DirItem]
    {
      entries := entries[p := DirItem];
    }

    /**
     * `open(p, 'w').write(text)`: the parent must be a directory and p must not
     * be one; p becomes a file holding exactly `text`.
     */
    method WriteFile(p: Path, text: string)
      requires Valid()
      requires p != [] && Parent(p) in entries && entries[Parent(p)] == DirItem
      requires !(p in entries && entries[p] == DirItem)
      modifies this
      ensures Valid()
      ensures entries == old(entries)[p := FileItem(text)]
    {
      entries := entries[p := FileItem(text)];
    }
  }

  /**
   * `create_structure(base_path, structure)`: for each entry in order, a
   * mapping becomes a directory unless its path exists, and is then entered
   * whether or not it existed; a string becomes a file unless its path exists.
   */
  method CreateStructure(fs: FileSystem, base: Path, structure: seq<Entry>)
    requires fs.Valid()
    requires structure != [] ==> base in fs.entries && fs.entries[base] == DirItem
    requires WellFormed(structure)
    requires NoFileInTheWay(fs.entries, base, structure)
    modifies fs
    ensures fs.Valid()
    ensures fs.entries == Desired(base, structure) + old(fs.entries)
    ensures forall p :: p in old(fs.entries) ==> p in fs.entries && fs.entries[p] == old(fs.entries)[p]
    decreases structure
  {
    ghost var before := fs.entries;
    for i := 0 to |structure|
      invariant fs.Valid()
      invariant fs.entries == Desired(base, structure[..i]) + before
    {
      var name, content := structure[i].name, structure[i].value;
      var path := base + [name];
      NewPathsElsewhere(base, structure, i);
      assert Parent(path) == base;
      ghost var done := Desired(base, structure[..i]);
      DesiredStep(base, structure, i);
      match content {
        case Dir(children) =>
          var present := fs.Exists(path);
          if !present {
            fs.MakeDirs(path);
          }
          AgreeBelowStep(before, fs.entries, done, base, structure, i);
          NoFileFrame(before, fs.entries, path, children);
          ghost var entered := fs.entries;
          CreateStructure(fs, path, children);
          DesiredKeys(path, children);
          OverlayDir(Desired(path, children), done, before, path, entered);
        case File(text) =>
          var present := fs.Exists(path);
          if !present {
            fs.WriteFile(path, text);
          }
          OverlayFile(done, before, path, FileItem(text), fs.entries);
      }
    }
    assert structure[..|structure|] == structure;
  }

  // ---------------------------------------------------------------------
  // Lemmas the method needs
  // ---------------------------------------------------------------------

  /** Everything a structure describes lies below `base`, under one of its own names. */
  lemma {:induction false} DesiredKeys(base: Path, es: seq<Entry>)
    ensures forall q :: q in Desired(base, es) ==> StrictlyUnder(base, q) && q[|base|] in Names(es)
    decreases es
  {
    if es != [] {
      var e, init := es[|es| - 1], es[..|es| - 1];
      DesiredKeys(base, init);
      EntryDesiredKeys(base, e);
      assert Names(init) <= Names(es);
      assert e.name in Names(es);
    }
  }

  /** Everything one entry describes lies below `base`, under that entry's name. */
  lemma {:induction false} EntryDesiredKeys(base: Path, e: Entry)
    ensures forall q :: q in EntryDesired(base, e) ==> StrictlyUnder(base, q) && q[|base|] == e.name
    decreases e
  {
    var path := base + [e.name];
    assert path[..|base|] == base;
    if e.value.Dir? {
      DesiredKeys(path, e.value.entries);
      forall q | StrictlyUnder(path, q)
        ensures StrictlyUnder(base, q) && q[|base|] == e.name
      {
        assert q[..|path|][..|base|] == q[..|base|];
        assert q[..|path|][|base|] == q[|base|];
      }
    }
  }

  /** The paths created for the entries before the i-th are elsewhere than below the i-th's path. */
  lemma NewPathsElsewhere(base: Path, es: seq<Entry>, i: nat)
    requires DistinctNames(es) && i < |es|
    ensures forall q :: q in Desired(base, es[..i]) ==>
      q != base && q != base + [es[i].name] && !StrictlyUnder(base + [es[i].name], q)
  {
    DesiredKeys(base, es[..i]);
    assert es[i].name !in Names(es[..i]);
  }

  /** The item a path stands for is the same in two file systems below base. */
  ghost predicate AgreeBelow(fs: map<Path, Item>, fs': map<Path, Item>, base: Path)
  {
    forall q :: StrictlyUnder(base, q) ==> (q in fs <==> q in fs') && (q in fs ==> fs[q] == fs'[q])
  }

  lemma AgreeBelowStep(before: map<Path, Item>, now: map<Path, Item>, done: map<Path, Item>,
                       base: Path, es: seq<Entry>, i: nat)
    requires DistinctNames(es) && i < |es|
    requires forall q :: q in done ==> q != base + [es[i].name] && !StrictlyUnder(base + [es[i].name], q)
    requires now == done + before || now == (done + before)[base + [es[i].name] := DirItem]
    ensures AgreeBelow(before, now, base + [es[i].name])
  {
  }

  /** Whether the source would crash depends only on what lies below base. */
  lemma {:induction false} NoFileFrame(fs: map<Path, Item>, fs': map<Path, Item>, base: Path, es: seq<Entry>)
    requires NoFileInTheWay(fs, base, es)
    requires AgreeBelow(fs, fs', base)
    ensures NoFileInTheWay(fs', base, es)
    decreases es
  {
    forall i | 0 <= i < |es| && es[i].value.Dir?
      ensures var path := base + [es[i].name];
        (es[i].value.entries != [] && path in fs' ==> fs'[path] == DirItem) &&
        NoFileInTheWay(fs', path, es[i].value.entries)
    {
      var path := base + [es[i].name];
      assert StrictlyUnder(base, path);
      forall q | StrictlyUnder(path, q)
        ensures StrictlyUnder(base, q)
      {
        assert q[..|path|][..|base|] == q[..|base|];
      }
      NoFileFrame(fs, fs', path, es[i].value.entries);
    }
  }

  /** Entering a directory path, created if missing, and then filling in what lies below it. */
  lemma OverlayDir(below: map<Path, Item>, done: map<Path, Item>, before: map<Path, Item>,
                   path: Path, entered: map<Path, Item>)
    requires path !in done && path !in below
    requires entered == (if path in done + before then done + before else (done + before)[path := DirItem])
    ensures below + entered == (below[path := DirItem] + done) + before
  {
  }

  /** Writing a file at a path only when it is missing. */
  lemma OverlayFile(done: map<Path, Item>, before: map<Path, Item>, path: Path, item: Item,
                    after: map<Path, Item>)
    requires path !in done
    requires after == (if path in done + before then done + before else (done + before)[path := item])
    ensures after == (map[path := item] + done) + before
  {
  }

  lemma DesiredStep(base: Path, es: seq<Entry>, i: nat)
    requires i < |es|
    ensures Desired(base, es[..i + 1]) == EntryDesired(base, es[i]) + Desired(base, es[..i])
  {
    assert es[..i + 1][..i] == es[..i];
  }

  // ---------------------------------------------------------------------
  // What the materialised file system contains
  // ---------------------------------------------------------------------

  /** Each entry of a mapping with distinct names is described at its own path, with its own item. */
  lemma {:induction false} DesiredEntry(base: Path, es: seq<Entry>, i: nat)
    requires DistinctNames(es) && i < |es|
    ensures base + [es[i].name] in Desired(base, es)
    ensures Desired(base, es)[base + [es[i].name]] == ItemOf(es[i].value)
    decreases es
  {
    var init := es[..|es| - 1];
    if i == |es| - 1 {
      NewPathsElsewhere(base, es, i);
    } else {
      assert init[i] == es[i];
      DesiredEntry(base, init, i);
      assert Desired(base, es).Keys >= Desired(base, init).Keys;
    }
  }

  /**
   * Below the path of a nested mapping, what the whole structure describes is
   * exactly what that nested mapping describes.
   */
  lemma {:induction false} DesiredBelowEntry(base: Path, es: seq<Entry>, i: nat)
    requires DistinctNames(es) && i < |es| && es[i].value.Dir?
    ensures AgreeBelow(Desired(base, es), Desired(base + [es[i].name], es[i].value.entries), base + [es[i].name])
    decreases es
  {
    var path := base + [es[i].name];
    var init, last := es[..|es| - 1], es[|es| - 1];
    var lastPath := base + [last.name];
    var own := EntryDesired(base, last);
    if i == |es| - 1 {
      NewPathsElsewhere(base, es, i);
      DesiredKeys(path, es[i].value.entries);
    } else {
      assert init[i] == es[i];
      DesiredBelowEntry(base, init, i);
      assert last.name != es[i].name;
      EntryDesiredKeys(base, last);
      forall q | StrictlyUnder(path, q)
        ensures q !in own
      {
        assert q[..|path|][|base|] == q[|base|];
      }
    }
  }

  /** Whether a structure is realised depends only on what lies below base. */
  lemma {:induction false} RealizesFrame(fs: map<Path, Item>, fs': map<Path, Item>, base: Path, es: seq<Entry>)
    requires Realizes(fs, base, es)
    requires AgreeBelow(fs, fs', base)
    ensures Realizes(fs', base, es)
    decreases es
  {
    forall i | 0 <= i < |es|
      ensures var path := base + [es[i].name];
        path in fs' && fs'[path] == ItemOf(es[i].value) &&
        (es[i].value.Dir? ==> Realizes(fs', path, es[i].value.entries))
    {
      var path := base + [es[i].name];
      assert StrictlyUnder(base, path);
      if es[i].value.Dir? {
        forall q | StrictlyUnder(path, q)
          ensures StrictlyUnder(base, q)
        {
          assert q[..|path|][..|base|] == q[..|base|];
        }
        RealizesFrame(fs, fs', path, es[i].value.entries);
      }
    }
  }

  /** What a well-formed structure describes holds every one of its entries, at every depth. */
  lemma {:induction false} DesiredRealizes(base: Path, es: seq<Entry>)
    requires WellFormed(es)
    ensures Realizes(Desired(base, es), base, es)
    decreases es
  {
    forall i | 0 <= i < |es|
      ensures var path := base + [es[i].name];
        path in Desired(base, es) && Desired(base, es)[path] == ItemOf(es[i].value) &&
        (es[i].value.Dir? ==> Realizes(Desired(base, es), path, es[i].value.entries))
    {
      var path := base + [es[i].name];
      DesiredEntry(base, es, i);
      if es[i].value.Dir? {
        DesiredRealizes(path, es[i].value.entries);
        DesiredBelowEntry(base, es, i);
        RealizesFrame(Desired(path, es[i].value.entries), Desired(base, es), path, es[i].value.entries);
      }
    }
  }

  /**
   * Starting with nothing below base, afterwards every mapping-valued key
   * names a directory and every string-valued key names a file holding
   * exactly that string, at every depth.
   */
  lemma CreateFromEmpty(fs: map<Path, Item>, base: Path, es: seq<Entry>)
    requires WellFormed(es)
    requires forall q :: q in fs ==> !StrictlyUnder(base, q)
    ensures Realizes(Desired(base, es) + fs, base, es)
  {
    DesiredRealizes(base, es);
    RealizesFrame(Desired(base, es), Desired(base, es) + fs, base, es);
  }

  /**
   * A second run with the same base and structure is allowed wherever the
   * first one was: the base keeps its item, and no file blocks a mapping.
   * It then leaves the file system as the first run left it.
   */
  lemma {:induction false} Idempotent(fs: map<Path, Item>, base: Path, es: seq<Entry>)
    requires WellFormed(es)
    requires NoFileInTheWay(fs, base, es)
    ensures base !in Desired(base, es)
    ensures base in fs ==> base in Desired(base, es) + fs && (Desired(base, es) + fs)[base] == fs[base]
    ensures NoFileInTheWay(Desired(base, es) + fs, base, es)
    ensures Desired(base, es) + (Desired(base, es) + fs) == Desired(base, es) + fs
    decreases es
  {
    DesiredKeys(base, es);
    var after := Desired(base, es) + fs;
    forall i | 0 <= i < |es| && es[i].value.Dir?
      ensures var path := base + [es[i].name];
        (es[i].value.entries != [] && path in after ==> after[path] == DirItem) &&
        NoFileInTheWay(after, path, es[i].value.entries)
    {
      var path, children := base + [es[i].name], es[i].value.entries;
      DesiredEntry(base, es, i);
      Idempotent(fs, path, children);
      DesiredBelowEntry(base, es, i);
      forall q | StrictlyUnder(path, q)
        ensures (q in Desired(path, children) + fs <==> q in after) &&
                (q in after ==> (Desired(path, children) + fs)[q] == after[q])
      {
      }
      NoFileFrame(Desired(path, children) + fs, after, path, children);
    }
  }

  /** What `{"a": {"b": "hello"}, "c": "world"}` describes below the root. */
  lemma ExampleDesired()
    ensures Desired([], Example())
         == map[["a"] := DirItem, ["a", "b"] := FileItem("hello"), ["c"] := FileItem("world")]
  {
    var b := Entry("b", File("hello"));
    var a := Entry("a", Dir([b]));
    assert [] + ["a"] == ["a"] && ["a"] + ["b"] == ["a", "b"] && [] + ["c"] == ["c"];
    assert [b][..0] == [];
    assert EntryDesired(["a"], b) == map[["a", "b"] := FileItem("hello")];
    assert Desired(["a"], [b]) == map[["a", "b"] := FileItem("hello")];
    assert EntryDesired([], a) == map[["a"] := DirItem, ["a", "b"] := FileItem("hello")];
    assert Example()[..1] == [a];
    assert Example()[..1][..0] == [];
    assert Desired([], [a]) == EntryDesired([], a);
    assert EntryDesired([], Example()[1]) == map[["c"] := FileItem("world")];
  }

  /** `{"a": {"b": "hello"}, "c": "world"}` materialised in an empty root. */
  lemma ExampleFromEmpty()
    ensures Desired([], Example()) + map[[] := DirItem]
         == map[[] := DirItem, ["a"] := DirItem, ["a", "b"] := FileItem("hello"), ["c"] := FileItem("world")]
  {
    ExampleDesired();
  }

  /**
   * The same structure over a root that already has directory `a` and a file
   * `c` with other contents: `a/b` is still filled in, `c` keeps its contents.
   */
  lemma ExampleOverExisting()
    ensures Desired([], Example()) + map[[] := DirItem, ["a"] := DirItem, ["c"] := FileItem("old")]
         == map[[] := DirItem, ["a"] := DirItem, ["a", "b"] := FileItem("hello"), ["c"] := FileItem("old")]
  {
    ExampleDesired();
  }

  /**
   * Running `create_structure` twice with the same base and structure: the
   * second run is allowed and changes nothing.
   */
  method CreateStructureTwice(fs: FileSystem, base: Path, structure: seq<Entry>)
    requires fs.Valid()
    requires structure != [] ==> base in fs.entries && fs.entries[base] == DirItem
    requires WellFormed(structure)
    requires NoFileInTheWay(fs.entries, base, structure)
    modifies fs
    ensures fs.Valid()
    ensures fs.entries == Desired(base, structure) + old(fs.entries)
  {
    Idempotent(fs.entries, base, structure);
    CreateStructure(fs, base, structure);
    ghost var first := fs.entries;
    CreateStructure(fs, base, structure);
    assert fs.entries == first;
  }
}
