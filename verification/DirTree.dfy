/** The directory tree of a folder selection: `validatePath` and `buildDirTree` (src/ndm_client.ts). */
module DirTree {
  import opened Wrappers
  import opened JsText
  import opened Sorting

  type Path = seq<Text>

  /** A file of the selection: its relative path, its own name, and the object materialized for it. */
  datatype Selected = Selected(path: Text, name: Text, obj: nat, size: nat)

  datatype Entry = FileEntry(name: Text, obj: nat, size: nat) | DirEntry(name: Text, children: seq<Entry>)

  datatype BuildError = EmptySelection | InvalidPath | Conflict

  const PATH_SLASH: Unit := 0x2F

  // ---- names and paths

  predicate ValidName(t: Text) {
    && t != [] && t != [0x2E] && t != [0x2E, 0x2E]
    && (forall i | 0 <= i < |t| :: t[i] != 0x5C && t[i] != PATH_SLASH && t[i] > 0x1F)
    && !(|t| >= 2 && (IsLower(t[0]) || IsUpper(t[0])) && t[1] == 0x3A)
  }

  function Parts(f: Selected): Path { Split(if f.path != [] then f.path else f.name, PATH_SLASH) }

  predicate ValidPath(parts: Path) { forall i | 0 <= i < |parts| :: ValidName(parts[i]) }

  /** The path below the root. */
  function Relative(f: Selected): Path { Parts(f)[1..] }

  // ---- the tree

  function FindChild(es: seq<Entry>, name: Text): (r: Option<nat>)
    ensures r.Some? ==> r.value < |es| && es[r.value].name == name
    ensures r.None? ==> forall i | 0 <= i < |es| :: es[i].name != name
  {
    if es == [] then None
    else if es[0].name == name then Some(0)
    else
      match FindChild(es[1..], name)
      case None => None
      case Some(i) => Some(i + 1)
  }

  /** Walks down `parts`, creating the directories it needs, and adds the file at the end. */
  function Place(es: seq<Entry>, parts: Path, f: Selected): Result<seq<Entry>, BuildError>
    requires parts != []
    decreases |parts|
  {
    var name := parts[0];
    var existing := FindChild(es, name);
    if |parts| == 1 then
      if existing.Some? then Err(Conflict)
      else if name != f.name then Err(InvalidPath)
      else Ok(es + [FileEntry(f.name, f.obj, f.size)])
    else if existing.None? then WithDirectory(es, name, Place([], parts[1..], f))
    else if es[existing.value].FileEntry? then Err(Conflict)
    else InDirectory(es, existing.value, Place(es[existing.value].children, parts[1..], f))
  }

  function WithDirectory(es: seq<Entry>, name: Text, r: Result<seq<Entry>, BuildError>)
    : Result<seq<Entry>, BuildError>
  {
    if r.Err? then r else Ok(es + [DirEntry(name, r.value)])
  }

  function InDirectory(es: seq<Entry>, k: nat, r: Result<seq<Entry>, BuildError>): Result<seq<Entry>, BuildError>
    requires k < |es|
  {
    if r.Err? then r else Ok(es[k := DirEntry(es[k].name, r.value)])
  }

  // ---- the directories, built in place

  /** What `dir.children` holds: a file, or a reference to a directory. */
  datatype Node = FileNode(name: Text, obj: nat, size: nat) | Sub(dir: Dir)

  function NodeName(node: Node): Text { if node.Sub? then node.dir.name else node.name }

  /** A node as a value. */
  ghost function NodeEntry(node: Node): (e: Entry)
    requires node.Sub? ==> node.dir.Valid()
    reads if node.Sub? then {node.dir} + node.dir.Repr else {}
    ensures e.name == NodeName(node) && (e.DirEntry? <==> node.Sub?)
    decreases if node.Sub? then node.dir.Repr else {}, 1
  {
    match node
    case FileNode(name, obj, size) => FileEntry(name, obj, size)
    case Sub(dir) => DirEntry(dir.name, dir.EntriesFrom(0))
  }

  class Dir {
    const name: Text
    var children: seq<Node>
    ghost var Repr: set<object>

    /** Below a directory is a tree: no directory is reached twice. */
    ghost predicate Valid()
      reads this, Repr
      decreases Repr
    {
      && this in Repr
      && (forall i | 0 <= i < |children| && children[i].Sub? ::
            && children[i].dir in Repr && children[i].dir.Repr <= Repr && this !in children[i].dir.Repr
            && children[i].dir.Valid())
      && (forall i, j | 0 <= i < j < |children| && children[i].Sub? && children[j].Sub? ::
            children[i].dir.Repr !! children[j].dir.Repr)
    }

    ghost function EntriesFrom(k: nat): (r: seq<Entry>)
      requires Valid() && k <= |children|
      reads this, Repr
      ensures |r| == |children| - k
      ensures forall i | k <= i < |children| :: r[i - k] == NodeEntry(children[i])
      decreases Repr, 0, |children| - k
    {
      if k == |children| then [] else [NodeEntry(children[k])] + EntriesFrom(k + 1)
    }

    /** The directory's content as a value. */
    ghost function Entries(): (r: seq<Entry>)
      requires Valid()
      reads this, Repr
      ensures |r| == |children| && forall i | 0 <= i < |children| :: r[i] == NodeEntry(children[i])
    {
      EntriesFrom(0)
    }

    constructor (name: Text)
      ensures Valid() && fresh(Repr) && this.name == name && children == [] && Repr == {this}
    {
      this.name := name;
      children := [];
      Repr := {this};
    }

    /** `dir.children.find(child => child.name === name)` */
    method Find(name: Text) returns (r: Option<nat>)
      requires Valid()
      ensures r == FindChild(Entries(), name)
    {
      var i := 0;
      while i < |children|
        invariant i <= |children| && forall j | 0 <= j < i :: NodeName(children[j]) != name
      {
        if NodeName(children[i]) == name {
          FirstNamed(Entries(), name, i);
          return Some(i);
        }
        i := i + 1;
      }
      return None;
    }

    method Push(node: Node)
      requires Valid() && (node.Sub? ==> node.dir.Valid() && node.dir.Repr !! Repr)
      modifies this
      ensures Valid() && Repr == old(Repr) + (if node.Sub? then node.dir.Repr else {})
      ensures children == old(children) + [node]
      ensures Entries() == old(Entries()) + [NodeEntry(node)]
    {
      hide Entries, EntriesFrom;
      ghost var before := Entries();
      children := children + [node];
      Repr := Repr + (if node.Sub? then node.dir.Repr else {});
      assert Valid();
      forall i | 0 <= i < |before|
        ensures NodeEntry(children[i]) == before[i]
      {
        assert children[i] == old(children)[i];
      }
      assert Entries() == before + [NodeEntry(node)];
    }

    /** The descent for one path, from this directory on. */
    method Add(parts: Path, f: Selected) returns (error: Option<BuildError>)
      requires Valid() && parts != []
      modifies Repr
      ensures fresh(Repr - old(Repr))
      ensures error.None? ==> Valid()
      ensures Place(old(Entries()), parts, f) == if error.None? then Ok(Entries()) else Err(error.value)
      decreases |parts|, 0
    {
      hide Place, EntriesFrom, FindChild, InDirectory, WithDirectory;
      ghost var before := Entries();
      PlaceStep(before, parts, f);
      var name := parts[0];
      var existing := Find(name);
      if |parts| == 1 {
        if existing.Some? {
          return Some(Conflict);
        }
        if name != f.name {
          return Some(InvalidPath);
        }
        Push(FileNode(f.name, f.obj, f.size));
        return None;
      }
      if existing.Some? && children[existing.value].FileNode? {
        return Some(Conflict);
      }
      if existing.None? {
        var child := new Dir(name);
        assert child.Entries() == [];
        Push(Sub(child));
        error := AddBelow(|children| - 1, parts[1..], f);
        LastReplaced(before, name, Place([], parts[1..], f));
      } else {
        error := AddBelow(existing.value, parts[1..], f);
      }
    }

    method AddBelow(k: nat, parts: Path, f: Selected) returns (error: Option<BuildError>)
      requires Valid() && parts != [] && k < |children| && children[k].Sub?
      modifies Repr
      ensures fresh(Repr - old(Repr))
      ensures error.None? ==> Valid()
      ensures var r := InDirectory(old(Entries()), k, Place(old(Entries())[k].children, parts, f));
              if error.None? then r == Ok(Entries()) else r == Err(error.value)
      decreases |parts|, 1
    {
      hide Place, EntriesFrom;
      ghost var before := Entries();
      var d := children[k].dir;
      error := d.Add(parts, f);
      Repr := Repr + d.Repr;
      if error.None? {
        assert forall i | 0 <= i < |children| && i != k :: NodeEntry(children[i]) == before[i];
        assert Entries() == before[k := NodeEntry(children[k])];
      }
    }
  }

  lemma PlaceStep(es: seq<Entry>, parts: Path, f: Selected)
    requires parts != []
    ensures var name := parts[0];
            var existing := FindChild(es, name);
            Place(es, parts, f) ==
            if |parts| == 1 then
              if existing.Some? then Err(Conflict)
              else if name != f.name then Err(InvalidPath)
              else Ok(es + [FileEntry(f.name, f.obj, f.size)])
            else if existing.None? then WithDirectory(es, name, Place([], parts[1..], f))
            else if es[existing.value].FileEntry? then Err(Conflict)
            else InDirectory(es, existing.value, Place(es[existing.value].children, parts[1..], f))
  {}

  lemma LastReplaced(es: seq<Entry>, name: Text, r: Result<seq<Entry>, BuildError>)
    ensures InDirectory(es + [DirEntry(name, [])], |es|, r) == WithDirectory(es, name, r)
  {
    if r.Ok? {
      assert (es + [DirEntry(name, [])])[|es| := DirEntry(name, r.value)] == es + [DirEntry(name, r.value)];
    }
  }

  lemma {:induction false} FirstNamed(es: seq<Entry>, name: Text, i: nat)
    requires i < |es| && es[i].name == name && forall j | 0 <= j < i :: es[j].name != name
    ensures FindChild(es, name) == Some(i)
  {
    if i > 0 {
      FirstNamed(es[1..], name, i - 1);
    }
  }

  method BuildDirTree(files: seq<Selected>) returns (r: Result<Dir, BuildError>)
    ensures r.Ok? <==> Acceptable(files)
    ensures r.Err? ==> (r.error == EmptySelection <==> files == [])
    ensures r.Err? ==> (r.error == Conflict <==> Rooted(files) && exists k :: FirstBlocked(files, k))
    ensures r.Ok? ==>
              && r.value.Valid() && fresh(r.value.Repr) && r.value.name == Parts(files[0])[0]
              && var children := r.value.Entries();
              && WellFormedTree(children)
              && Leaves(children) == LeavesFor(files)
              && TotalFiles(children) == |files|
              && TotalBytes(children) == SizeSum(files)
  {
    hide Place, Leaves, WellFormedTree, TotalFiles, TotalBytes, SizeSum, Split, ValidName, PrefixFree, Built;
    if |files| == 0 {
      return Err(EmptySelection);
    }
    if exists i :: 0 <= i < |files| && !ValidPath(Parts(files[i])) {
      return Err(InvalidPath);
    }
    if exists i :: 0 <= i < |files| && (|Parts(files[i])| < 2 || Parts(files[i])[0] != Parts(files[0])[0]) {
      return Err(InvalidPath);
    }
    var root := new Dir(Parts(files[0])[0]);
    BuiltEmpty();
    assert files[..0] == [] && root.Entries() == [];
    for index := 0 to |files|
      invariant root.Valid() && fresh(root.Repr) && Built(root.Entries(), files[..index])
    {
      var f := files[index];
      assert |Parts(f)| >= 2;
      assert files[..index + 1] == files[..index] + [f];
      BuiltMeans(root.Entries(), files[..index]);
      BuildStep(root.Entries(), files[..index], f);
      var error := root.Add(Relative(f), f);
      if error.Some? {
        if PrefixFree(files[..index + 1]) {
          NoneBlocked(files, index);
        } else {
          assert FirstBlocked(files, index);
        }
        PrefixFreePrefix(files, index + 1);
        return Err(error.value);
      }
    }
    assert files[..|files|] == files;
    BuiltMeans(root.Entries(), files);
    return Ok(root);
  }

  // ---- which selections it accepts

  predicate Named(f: Selected) {
    var parts := Parts(f);
    |parts| >= 2 && parts[|parts| - 1] == f.name
  }

  /** No relative path is a prefix of another file's, so none is repeated and no file is used as a directory. */
  predicate PrefixFree(files: seq<Selected>) {
    forall i, j | 0 <= i < |files| && 0 <= j < |files| && i != j :: !(Relative(files[i]) <= Relative(files[j]))
  }

  predicate Acceptable(files: seq<Selected>) {
    && files != []
    && (forall i | 0 <= i < |files| :: ValidPath(Parts(files[i])) && Named(files[i]))
    && (forall i | 0 <= i < |files| :: Parts(files[i])[0] == Parts(files[0])[0])
    && PrefixFree(files)
  }

  /** Paths that are valid and below one root. */
  predicate Rooted(files: seq<Selected>) {
    && files != []
    && (forall i | 0 <= i < |files| :: ValidPath(Parts(files[i])) && |Parts(files[i])| >= 2)
    && (forall i | 0 <= i < |files| :: Parts(files[i])[0] == Parts(files[0])[0])
  }

  /** File `k` is the first that is misnamed or in the way of one before it, and it is in the way. */
  predicate FirstBlocked(files: seq<Selected>, k: nat) {
    && k < |files| && PrefixFree(files[..k]) && (forall i | 0 <= i < k :: Named(files[i]))
    && !PrefixFree(files[..k + 1])
  }

  /** When the first such file is misnamed only, none is the first blocked one. */
  lemma NoneBlocked(files: seq<Selected>, n: nat)
    requires n < |files| && PrefixFree(files[..n + 1]) && !Named(files[n])
    ensures forall k: nat :: !FirstBlocked(files, k)
  {
    hide PrefixFree, Named;
    forall k: nat
      ensures !FirstBlocked(files, k)
    {
      if k <= n {
        PrefixFreePrefix(files[..n + 1], k + 1);
        assert files[..n + 1][..k + 1] == files[..k + 1];
      }
    }
  }

  lemma PrefixFreePrefix(files: seq<Selected>, n: nat)
    requires n <= |files|
    ensures PrefixFree(files) ==> PrefixFree(files[..n])
  {}

  // ---- what the tree holds

  datatype Leaf = Leaf(path: Path, name: Text, obj: nat, size: nat)

  function LeafOf(f: Selected): Leaf { Leaf(Relative(f), f.name, f.obj, f.size) }

  ghost function LeavesFor(files: seq<Selected>): set<Leaf> { set i | 0 <= i < |files| :: LeafOf(files[i]) }

  /** The files of a list of entries, each with the path of names that leads to it. */
  ghost function Leaves(es: seq<Entry>): set<Leaf> {
    set i, l | 0 <= i < |es| && l in EntryLeaves(es[i]) :: l
  }

  ghost function EntryLeaves(e: Entry): set<Leaf> {
    match e
    case FileEntry(name, obj, size) => {Leaf([name], name, obj, size)}
    case DirEntry(name, children) => set l | l in Leaves(children) :: l.(path := [name] + l.path)
  }

  /** Sibling names are unique, and every directory holds a file. */
  ghost predicate WellFormedTree(es: seq<Entry>) {
    && (forall i, j | 0 <= i < j < |es| :: es[i].name != es[j].name)
    && (forall i | 0 <= i < |es| && es[i].DirEntry? :: es[i].children != [] && WellFormedTree(es[i].children))
  }

  /** `collectSummary` */
  function TotalFiles(es: seq<Entry>): nat {
    if es == [] then 0
    else (if es[0].FileEntry? then 1 else TotalFiles(es[0].children)) + TotalFiles(es[1..])
  }

  function TotalBytes(es: seq<Entry>): nat {
    if es == [] then 0
    else (if es[0].FileEntry? then es[0].size else TotalBytes(es[0].children)) + TotalBytes(es[1..])
  }

  function SizeSum(files: seq<Selected>): nat {
    if files == [] then 0 else files[0].size + SizeSum(files[1..])
  }

  lemma {:induction false} SizeSumAppend(files: seq<Selected>, f: Selected)
    ensures SizeSum(files + [f]) == SizeSum(files) + f.size
  {
    if files != [] {
      SizeSumAppend(files[1..], f);
      assert (files + [f])[1..] == files[1..] + [f];
    } else {
      assert [f][1..] == [];
    }
  }

  lemma {:induction false} TotalsAppend(es: seq<Entry>, e: Entry)
    ensures TotalFiles(es + [e]) == TotalFiles(es) + TotalFiles([e])
    ensures TotalBytes(es + [e]) == TotalBytes(es) + TotalBytes([e])
  {
    if es != [] {
      TotalsAppend(es[1..], e);
      assert (es + [e])[1..] == es[1..] + [e];
    } else {
      assert es + [e] == [e];
    }
  }

  lemma {:induction false} TotalsUpdate(es: seq<Entry>, k: nat, e: Entry)
    requires k < |es|
    ensures TotalFiles(es[k := e]) + TotalFiles([es[k]]) == TotalFiles(es) + TotalFiles([e])
    ensures TotalBytes(es[k := e]) + TotalBytes([es[k]]) == TotalBytes(es) + TotalBytes([e])
  {
    assert [e][1..] == [] && [es[k]][1..] == [];
    if k > 0 {
      TotalsUpdate(es[1..], k - 1, e);
      assert es[k := e][1..] == es[1..][k - 1 := e];
    }
  }

  lemma TotalsOne(e: Entry)
    ensures TotalFiles([e]) == if e.FileEntry? then 1 else TotalFiles(e.children)
    ensures TotalBytes([e]) == if e.FileEntry? then e.size else TotalBytes(e.children)
  {
    assert [e][1..] == [];
  }

  lemma LeavesAppend(es: seq<Entry>, e: Entry)
    ensures Leaves(es + [e]) == Leaves(es) + EntryLeaves(e)
  {
    forall l
      ensures l in Leaves(es + [e]) <==> l in Leaves(es) || l in EntryLeaves(e)
    {
      if l in Leaves(es) {
        var i :| 0 <= i < |es| && l in EntryLeaves(es[i]);
        assert (es + [e])[i] == es[i];
      }
      if l in EntryLeaves(e) {
        assert (es + [e])[|es|] == e;
      }
    }
  }

  lemma LeavesUpdate(es: seq<Entry>, k: nat, e: Entry, x: Leaf)
    requires k < |es| && EntryLeaves(e) == EntryLeaves(es[k]) + {x}
    ensures Leaves(es[k := e]) == Leaves(es) + {x}
  {
    var t := es[k := e];
    forall l
      ensures l in Leaves(t) <==> l in Leaves(es) || l == x
    {
      if l in Leaves(t) {
        var i :| 0 <= i < |t| && l in EntryLeaves(t[i]);
        assert i != k ==> l in EntryLeaves(es[i]);
      }
      if l in Leaves(es) {
        var i :| 0 <= i < |es| && l in EntryLeaves(es[i]);
        assert l in EntryLeaves(t[i]);
      }
      if l == x {
        assert x in EntryLeaves(t[k]);
      }
    }
  }

  lemma DirLeaves(name: Text, before: seq<Entry>, children: seq<Entry>, x: Leaf)
    requires Leaves(children) == Leaves(before) + {x}
    ensures EntryLeaves(DirEntry(name, children)) == EntryLeaves(DirEntry(name, before)) + {x.(path := [name] + x.path)}
  {}

  lemma LeafHead(e: Entry, l: Leaf)
    requires l in EntryLeaves(e)
    ensures l.path != [] && l.path[0] == e.name
    ensures e.DirEntry? ==> l.(path := l.path[1..]) in Leaves(e.children)
  {
    if e.DirEntry? {
      var m :| m in Leaves(e.children) && l == m.(path := [e.name] + m.path);
      assert l.path[1..] == m.path;
    }
  }

  lemma {:induction false} NonEmptyLeaves(es: seq<Entry>)
    requires WellFormedTree(es) && es != []
    ensures exists l :: l in Leaves(es)
    decreases es
  {
    if es[0].FileEntry? {
      var l := Leaf([es[0].name], es[0].name, es[0].obj, es[0].size);
      assert l in EntryLeaves(es[0]);
      assert l in Leaves(es);
    } else {
      NonEmptyLeaves(es[0].children);
      var m :| m in Leaves(es[0].children);
      var l := m.(path := [es[0].name] + m.path);
      assert l in EntryLeaves(es[0]);
      assert l in Leaves(es);
    }
  }

  /** No leaf lies on the way to `parts`, and `parts` does not lead to a directory. */
  ghost predicate Clear(es: seq<Entry>, parts: Path) {
    forall l | l in Leaves(es) :: !(l.path <= parts) && !(parts <= l.path)
  }

  lemma ClearBelow(es: seq<Entry>, k: nat, parts: Path)
    requires WellFormedTree(es) && k < |es| && |parts| > 1 && es[k].DirEntry? && es[k].name == parts[0]
    ensures Clear(es, parts) <==> Clear(es[k].children, parts[1..])
  {
    var name, below := es[k].name, parts[1..];
    assert parts == [name] + below;
    if Clear(es, parts) {
      forall l | l in Leaves(es[k].children)
        ensures !(l.path <= below) && !(below <= l.path)
      {
        var m := l.(path := [name] + l.path);
        assert m in EntryLeaves(es[k]) && m in Leaves(es);
        PrefixBelow(name, l.path, below);
      }
    }
    if Clear(es[k].children, below) {
      forall l | l in Leaves(es)
        ensures !(l.path <= parts) && !(parts <= l.path)
      {
        var i :| 0 <= i < |es| && l in EntryLeaves(es[i]);
        LeafHead(es[i], l);
        if l.path[0] == name {
          assert i == k;
          assert l.path == [name] + l.path[1..];
          PrefixBelow(name, l.path[1..], below);
        }
      }
    }
  }

  lemma PrefixBelow(name: Text, a: Path, b: Path)
    ensures [name] + a <= [name] + b <==> a <= b
    ensures [name] + b <= [name] + a <==> b <= a
  {
    assert ([name] + a)[1..] == a && ([name] + b)[1..] == b;
    if a <= b { assert b == a + b[|a|..]; assert [name] + b == ([name] + a) + b[|a|..]; }
    if b <= a { assert a == b + a[|b|..]; assert [name] + a == ([name] + b) + a[|b|..]; }
    if [name] + a <= [name] + b {
      assert forall i | 0 <= i < |a| :: a[i] == ([name] + a)[i + 1] == ([name] + b)[i + 1] == b[i];
    }
    if [name] + b <= [name] + a {
      assert forall i | 0 <= i < |b| :: b[i] == ([name] + b)[i + 1] == ([name] + a)[i + 1] == a[i];
    }
  }

  lemma ClearAtNew(es: seq<Entry>, parts: Path)
    requires WellFormedTree(es) && parts != [] && forall i | 0 <= i < |es| :: es[i].name != parts[0]
    ensures Clear(es, parts)
  {
    forall l | l in Leaves(es)
      ensures !(l.path <= parts) && !(parts <= l.path)
    {
      var i :| 0 <= i < |es| && l in EntryLeaves(es[i]);
      LeafHead(es[i], l);
    }
  }

  lemma NotClearAtName(es: seq<Entry>, k: nat, parts: Path)
    requires WellFormedTree(es) && k < |es| && parts != [] && es[k].name == parts[0]
    requires |parts| == 1 || es[k].FileEntry?
    ensures !Clear(es, parts)
  {
    if es[k].FileEntry? {
      var l := Leaf([es[k].name], es[k].name, es[k].obj, es[k].size);
      assert l in EntryLeaves(es[k]) && l in Leaves(es);
      assert l.path <= parts;
    } else {
      NonEmptyLeaves(es[k].children);
      var m :| m in Leaves(es[k].children);
      var l := m.(path := [es[k].name] + m.path);
      assert l in EntryLeaves(es[k]) && l in Leaves(es);
      assert parts <= l.path;
    }
  }

  /**
   * What one insertion must do: succeed exactly when the way is clear and the name matches, and add that leaf alone.
   */
  ghost predicate AddsLeaf(es: seq<Entry>, parts: Path, f: Selected, r: Result<seq<Entry>, BuildError>)
    requires parts != []
  {
    && (r.Ok? <==> Clear(es, parts) && parts[|parts| - 1] == f.name)
    && (r.Err? ==> r.error == if Clear(es, parts) then InvalidPath else Conflict)
    && (r.Ok? ==>
          && r.value != [] && WellFormedTree(r.value)
          && Leaves(r.value) == Leaves(es) + {Leaf(parts, f.name, f.obj, f.size)}
          && TotalFiles(r.value) == TotalFiles(es) + 1 && TotalBytes(r.value) == TotalBytes(es) + f.size)
  }

  lemma InsertNewFile(es: seq<Entry>, parts: Path, f: Selected)
    requires WellFormedTree(es) && |parts| == 1 && FindChild(es, parts[0]).None?
    ensures AddsLeaf(es, parts, f, Place(es, parts, f))
  {
    ClearAtNew(es, parts);
    var e := FileEntry(f.name, f.obj, f.size);
    LeavesAppend(es, e);
    TotalsAppend(es, e);
    TotalsOne(e);
    assert parts == [parts[0]];
  }

  lemma InsertNewDirectory(es: seq<Entry>, parts: Path, f: Selected)
    requires WellFormedTree(es) && |parts| > 1 && FindChild(es, parts[0]).None?
    requires AddsLeaf([], parts[1..], f, Place([], parts[1..], f))
    ensures AddsLeaf(es, parts, f, Place(es, parts, f))
  {
    var name := parts[0];
    ClearAtNew(es, parts);
    EmptyClear(parts[1..]);
    if Place([], parts[1..], f).Ok? {
      var children := Place([], parts[1..], f).value;
      var e := DirEntry(name, children);
      NewDirLeaves(name, children, Leaf(parts[1..], f.name, f.obj, f.size));
      assert [name] + parts[1..] == parts;
      LeavesAppend(es, e);
      TotalsAppend(es, e);
      TotalsOne(e);
      AppendWellFormed(es, e);
    }
  }

  lemma NewDirLeaves(name: Text, children: seq<Entry>, x: Leaf)
    requires Leaves(children) == Leaves([]) + {x}
    ensures EntryLeaves(DirEntry(name, children)) == {x.(path := [name] + x.path)}
  {
    DirLeaves(name, [], children, x);
    assert EntryLeaves(DirEntry(name, [])) == {};
  }

  lemma InsertBelow(es: seq<Entry>, k: nat, parts: Path, f: Selected)
    requires WellFormedTree(es) && |parts| > 1 && FindChild(es, parts[0]) == Some(k) && es[k].DirEntry?
    requires AddsLeaf(es[k].children, parts[1..], f, Place(es[k].children, parts[1..], f))
    ensures AddsLeaf(es, parts, f, Place(es, parts, f))
  {
    hide Clear, Leaves;
    var name := parts[0];
    ClearBelow(es, k, parts);
    if Place(es[k].children, parts[1..], f).Ok? {
      var children := Place(es[k].children, parts[1..], f).value;
      var e := DirEntry(name, children);
      assert [name] + parts[1..] == parts;
      var x := Leaf(parts, f.name, f.obj, f.size);
      DirLeaves(name, es[k].children, children, Leaf(parts[1..], f.name, f.obj, f.size));
      LeavesUpdate(es, k, e, x);
      TotalsUpdate(es, k, e);
      TotalsOne(e);
      TotalsOne(es[k]);
      UpdateWellFormed(es, k, e);
    }
  }

  /** One insertion, at any depth. */
  lemma {:induction false} InsertLeaves(es: seq<Entry>, parts: Path, f: Selected)
    requires WellFormedTree(es) && parts != []
    ensures AddsLeaf(es, parts, f, Place(es, parts, f))
    decreases |parts|
  {
    hide Clear, Leaves, AddsLeaf;
    var existing := FindChild(es, parts[0]);
    if existing.None? {
      if |parts| == 1 {
        InsertNewFile(es, parts, f);
      } else {
        EmptyClear(parts[1..]);
        InsertLeaves([], parts[1..], f);
        InsertNewDirectory(es, parts, f);
      }
    } else if |parts| == 1 || es[existing.value].FileEntry? {
      InsertBlocked(es, existing.value, parts, f);
    } else {
      InsertLeaves(es[existing.value].children, parts[1..], f);
      InsertBelow(es, existing.value, parts, f);
    }
  }

  lemma InsertBlocked(es: seq<Entry>, k: nat, parts: Path, f: Selected)
    requires WellFormedTree(es) && parts != [] && FindChild(es, parts[0]) == Some(k)
    requires |parts| == 1 || es[k].FileEntry?
    ensures AddsLeaf(es, parts, f, Place(es, parts, f))
  {
    NotClearAtName(es, k, parts);
  }

  lemma EmptyClear(parts: Path)
    ensures Clear([], parts) && WellFormedTree([]) && Leaves([]) == {}
  {}

  lemma AppendWellFormed(es: seq<Entry>, e: Entry)
    requires WellFormedTree(es) && e.DirEntry? && e.children != [] && WellFormedTree(e.children)
    requires forall i | 0 <= i < |es| :: es[i].name != e.name
    ensures WellFormedTree(es + [e])
  {}

  lemma UpdateWellFormed(es: seq<Entry>, k: nat, e: Entry)
    requires WellFormedTree(es) && k < |es| && e.DirEntry?
    requires e.name == es[k].name && e.children != [] && WellFormedTree(e.children)
    ensures WellFormedTree(es[k := e])
  {
    var t := es[k := e];
    forall i, j | 0 <= i < j < |t|
      ensures t[i].name != t[j].name
    {
      assert es[i].name != es[j].name;
    }
    forall i | 0 <= i < |t| && t[i].DirEntry?
      ensures t[i].children != [] && WellFormedTree(t[i].children)
    {
      if i != k { assert t[i] == es[i]; }
    }
  }

  /** What the loop keeps: the tree holds exactly the files placed so far, none of which is in another's way. */
  ghost predicate Built(children: seq<Entry>, files: seq<Selected>) {
    && WellFormedTree(children)
    && Leaves(children) == LeavesFor(files)
    && TotalFiles(children) == |files| && TotalBytes(children) == SizeSum(files)
    && (forall i | 0 <= i < |files| :: Named(files[i]))
    && PrefixFree(files)
  }

  lemma BuiltEmpty()
    ensures Built([], [])
  {}

  lemma BuiltMeans(children: seq<Entry>, files: seq<Selected>)
    requires Built(children, files)
    ensures WellFormedTree(children) && Leaves(children) == LeavesFor(files)
    ensures TotalFiles(children) == |files| && TotalBytes(children) == SizeSum(files)
    ensures PrefixFree(files) && forall i | 0 <= i < |files| :: Named(files[i])
  {}

  /** The way to a new file is clear exactly when adding it keeps the paths prefix-free. */
  lemma ClearIffPrefixFree(children: seq<Entry>, files: seq<Selected>, f: Selected)
    requires Built(children, files)
    requires |Parts(f)| >= 2
    ensures Clear(children, Relative(f)) <==> PrefixFree(files + [f])
  {
    hide WellFormedTree, TotalFiles, TotalBytes, SizeSum, Leaves, Parts, Named;
    var all := files + [f];
    if Clear(children, Relative(f)) {
      forall i, j | 0 <= i < |all| && 0 <= j < |all| && i != j
        ensures !(Relative(all[i]) <= Relative(all[j]))
      {
        if i < |files| { assert all[i] == files[i] && LeafOf(files[i]) in LeavesFor(files); }
        if j < |files| { assert all[j] == files[j] && LeafOf(files[j]) in LeavesFor(files); }
      }
    }
    if PrefixFree(all) {
      forall l | l in Leaves(children)
        ensures !(l.path <= Relative(f)) && !(Relative(f) <= l.path)
      {
        var i :| 0 <= i < |files| && l == LeafOf(files[i]);
        assert all[i] == files[i] && all[|files|] == f;
      }
    }
  }

  lemma BuildStep(children: seq<Entry>, files: seq<Selected>, f: Selected)
    requires Built(children, files) && |Parts(f)| >= 2
    ensures Place(children, Relative(f), f).Ok? <==> Named(f) && PrefixFree(files + [f])
    ensures Place(children, Relative(f), f).Err? ==>
              Place(children, Relative(f), f).error == if PrefixFree(files + [f]) then InvalidPath else Conflict
    ensures Place(children, Relative(f), f).Ok? ==> Built(Place(children, Relative(f), f).value, files + [f])
  {
    hide Place, Leaves, WellFormedTree, TotalFiles, TotalBytes, SizeSum, Clear, LeavesFor, PrefixFree, Named, Parts;
    ClearIffPrefixFree(children, files, f);
    InsertLeaves(children, Relative(f), f);
    SizeSumAppend(files, f);
    LeavesForNext(files, f);
    NamedLast(f);
  }

  lemma NamedLast(f: Selected)
    requires |Parts(f)| >= 2
    ensures Named(f) <==> Relative(f)[|Relative(f)| - 1] == f.name
  {}

  lemma LeavesForNext(files: seq<Selected>, f: Selected)
    ensures LeavesFor(files + [f]) == LeavesFor(files) + {LeafOf(f)}
  {
    hide LeafOf;
    var all := files + [f];
    assert forall i | 0 <= i < |files| :: all[i] == files[i];
    assert all[|files|] == f;
    forall l
      ensures l in LeavesFor(all) <==> l in LeavesFor(files) || l == LeafOf(f)
    {
      if l in LeavesFor(files) {
        var i :| 0 <= i < |files| && l == LeafOf(files[i]);
        assert l == LeafOf(all[i]);
      }
    }
  }

  // ---- the order of the selection does not matter

  lemma SameMembers(a: seq<Selected>, b: seq<Selected>)
    requires multiset(a) == multiset(b)
    ensures |a| == |b| && forall x :: x in a <==> x in b
  {
    assert |multiset(a)| == |multiset(b)|;
    forall x
      ensures x in a <==> x in b
    {
      assert x in a <==> x in multiset(a);
      assert x in b <==> x in multiset(b);
    }
  }

  /** A rearranged selection is accepted alike, and its tree holds the same leaves. */
  lemma OrderForgotten(a: seq<Selected>, b: seq<Selected>)
    requires multiset(a) == multiset(b)
    ensures Acceptable(a) ==> Acceptable(b)
    ensures LeavesFor(a) == LeavesFor(b)
  {
    SameMembers(a, b);
    forall l
      ensures l in LeavesFor(a) <==> l in LeavesFor(b)
    {
      if l in LeavesFor(a) {
        var i :| 0 <= i < |a| && l == LeafOf(a[i]);
        assert a[i] in b;
        var j :| 0 <= j < |b| && b[j] == a[i];
      }
      if l in LeavesFor(b) {
        var i :| 0 <= i < |b| && l == LeafOf(b[i]);
        assert b[i] in a;
        var j :| 0 <= j < |a| && a[j] == b[i];
      }
    }
    if Acceptable(a) {
      MembersAcceptable(a, b);
      PrefixFreePermutes(a, b);
    }
  }

  lemma MembersAcceptable(a: seq<Selected>, b: seq<Selected>)
    requires Acceptable(a) && |a| == |b| && forall x :: x in a <==> x in b
    ensures b != []
    ensures forall i | 0 <= i < |b| :: ValidPath(Parts(b[i])) && Named(b[i]) && Parts(b[i])[0] == Parts(b[0])[0]
  {
    forall i | 0 <= i < |b|
      ensures ValidPath(Parts(b[i])) && Named(b[i]) && Parts(b[i])[0] == Parts(a[0])[0]
    {
      assert b[i] in a;
      var j :| 0 <= j < |a| && a[j] == b[i];
    }
  }

  function Same(f: Selected): Selected { f }

  lemma PrefixFreePermutes(a: seq<Selected>, b: seq<Selected>)
    requires multiset(a) == multiset(b) && PrefixFree(a) && forall x :: x in a <==> x in b
    ensures PrefixFree(b)
  {
    forall i, j | 0 <= i < j < |a|
      ensures a[i] != a[j]
    {
      assert !(Relative(a[i]) <= Relative(a[j]));
    }
    DistinctByPermutes(Same, a, b);
    forall i, j | 0 <= i < |b| && 0 <= j < |b| && i != j
      ensures !(Relative(b[i]) <= Relative(b[j]))
    {
      assert b[i] in a && b[j] in a;
      var k :| 0 <= k < |a| && a[k] == b[i];
      var l :| 0 <= l < |a| && a[l] == b[j];
      assert Same(b[i]) != Same(b[j]);
    }
  }

  // ---- the names it accepts

  /**
   * A name is a proper one: not empty and no dot name, without slashes, backslashes and control characters, and it
   * does not begin with a drive.
   */
  predicate Proper(name: Text) {
    && |name| > 0 && name != Lit(".") && name != Lit("..")
    && (forall u | u in name :: u >= ' ' as int && u != '/' as int && u != '\\' as int)
    && (|name| > 1 && name[1] == ':' as int ==>
          !('a' as int <= name[0] <= 'z' as int) && !('A' as int <= name[0] <= 'Z' as int))
  }

  lemma ValidNameIff(name: Text)
    ensures ValidName(name) <==> Proper(name)
  {
    assert Lit(".") == [0x2E] && Lit("..") == [0x2E, 0x2E];
    if ValidName(name) {
      forall u | u in name
        ensures u >= ' ' as int && u != '/' as int && u != '\\' as int
      {
        var i :| 0 <= i < |name| && name[i] == u;
      }
    }
    if Proper(name) {
      assert forall i | 0 <= i < |name| :: name[i] in name;
    }
  }

  /** The root, and below it proper names down to the file's own. */
  ghost predicate PathUnder(root: Text, f: Selected) { exists below :: WayTo(root, below, f) }

  ghost predicate WayTo(root: Text, below: Path, f: Selected) {
    && below != [] && (forall i | 0 <= i < |below| :: Proper(below[i])) && below[|below| - 1] == f.name
    && f.path == root + Lit("/") + Join(below, '/' as int)
  }

  /** No path is another's, or continues it. */
  ghost predicate Apart(files: seq<Selected>) {
    forall i, j | 0 <= i < |files| && 0 <= j < |files| && i != j ::
      files[i].path != files[j].path && !(files[i].path + Lit("/") <= files[j].path)
  }

  lemma {:induction false} JoinConcat(a: Path, b: Path)
    requires a != [] && b != []
    ensures Join(a + b, PATH_SLASH) == Join(a, PATH_SLASH) + [PATH_SLASH] + Join(b, PATH_SLASH)
  {
    if |a| == 1 {
      assert (a + b)[1..] == b;
    } else {
      JoinConcat(a[1..], b);
      assert (a + b)[1..] == a[1..] + b;
    }
  }

  /** A list of names begins another exactly when its text is the other's, or continued by it. */
  lemma JoinPrefixIff(a: Path, b: Path)
    requires a != [] && b != []
    requires (forall i | 0 <= i < |a| :: PATH_SLASH !in a[i]) && (forall i | 0 <= i < |b| :: PATH_SLASH !in b[i])
    ensures a <= b
       <==> Join(a, PATH_SLASH) == Join(b, PATH_SLASH) || Join(a, PATH_SLASH) + [PATH_SLASH] <= Join(b, PATH_SLASH)
  {
    hide Join, Split;
    var s, t := Join(a, PATH_SLASH), Join(b, PATH_SLASH);
    SplitJoin(a, PATH_SLASH);
    SplitJoin(b, PATH_SLASH);
    if a <= b && a != b {
      var more := b[|a|..];
      assert b == a + more;
      JoinConcat(a, more);
    }
    if s + [PATH_SLASH] <= t {
      JoinContinues(a, b, t[|s| + 1..]);
    }
  }

  lemma JoinContinues(a: Path, b: Path, rest: Text)
    requires a != [] && b != [] && Join(b, PATH_SLASH) == Join(a, PATH_SLASH) + [PATH_SLASH] + rest
    requires (forall i | 0 <= i < |a| :: PATH_SLASH !in a[i]) && (forall i | 0 <= i < |b| :: PATH_SLASH !in b[i])
    ensures a <= b
  {
    hide Join, Split;
    var more := Split(rest, PATH_SLASH);
    JoinSplit(rest, PATH_SLASH);
    JoinConcat(a, more);
    SplitJoin(b, PATH_SLASH);
    SplitJoin(a + more, PATH_SLASH);
  }

  /** A file without a path would have to be below itself. */
  lemma NoPathNoName(f: Selected)
    requires f.path == []
    ensures !Named(f)
  {
    if PATH_SLASH !in f.name {
      SplitJoin([f.name], PATH_SLASH);
    }
  }

  lemma PathJoined(f: Selected)
    requires Named(f)
    ensures f.path == Parts(f)[0] + Lit("/") + Join(Relative(f), PATH_SLASH)
  {
    if f.path == [] {
      NoPathNoName(f);
    }
    JoinSplit(f.path, PATH_SLASH);
    assert Lit("/") == [PATH_SLASH];
    RootJoined(Split(f.path, PATH_SLASH));
    hide Lit, Split, Join;
  }

  /** The path's own names, when the file is accepted. */
  lemma PathReads(f: Selected)
    requires ValidPath(Parts(f)) && Named(f)
    ensures WayTo(Parts(f)[0], Relative(f), f) && Proper(Parts(f)[0])
  {
    hide Proper, ValidName, Lit, Split, Join;
    PathJoined(f);
    var parts := Parts(f);
    forall i | 0 <= i < |parts|
      ensures Proper(parts[i])
    {
      ValidNameIff(parts[i]);
    }
  }

  lemma RootJoined(parts: Path)
    requires |parts| > 1
    ensures Join(parts, PATH_SLASH) == parts[0] + [PATH_SLASH] + Join(parts[1..], PATH_SLASH)
  {}

  lemma ProperParts(root: Text, below: Path)
    requires Proper(root) && forall i | 0 <= i < |below| :: Proper(below[i])
    ensures ValidPath([root] + below)
    ensures forall i | 0 <= i < |[root] + below| :: PATH_SLASH !in ([root] + below)[i]
  {
    var parts := [root] + below;
    forall i | 0 <= i < |parts|
      ensures ValidName(parts[i]) && PATH_SLASH !in parts[i]
    {
      ValidNameIff(parts[i]);
      assert parts[i] == if i == 0 then root else below[i - 1];
    }
  }

  lemma WayReads(root: Text, below: Path, f: Selected)
    requires Proper(root) && WayTo(root, below, f)
    ensures ValidPath(Parts(f)) && Named(f) && Parts(f) == [root] + below
  {
    ProperParts(root, below);
    WayParts(root, below, f);
    hide Proper, ValidPath, Parts, Lit, Join;
    assert ([root] + below)[|below|] == below[|below| - 1];
  }

  lemma WayParts(root: Text, below: Path, f: Selected)
    requires Proper(root) && WayTo(root, below, f)
    ensures Parts(f) == [root] + below
  {
    ProperParts(root, below);
    assert Lit("/") == [PATH_SLASH];
    hide Proper, ValidPath, Lit, Split, Join;
    PathSplits(root, below);
  }

  lemma PathSplits(root: Text, below: Path)
    requires below != [] && forall i | 0 <= i < |[root] + below| :: PATH_SLASH !in ([root] + below)[i]
    ensures var t := root + [PATH_SLASH] + Join(below, PATH_SLASH); t != [] && Split(t, PATH_SLASH) == [root] + below
  {
    var parts := [root] + below;
    hide Split, Join;
    SplitJoin(parts, PATH_SLASH);
    RootJoined(parts);
    assert parts[1..] == below;
  }

  lemma ApartIff(files: seq<Selected>, root: Text)
    requires forall i | 0 <= i < |files| :: ValidPath(Parts(files[i])) && Named(files[i]) && Parts(files[i])[0] == root
    ensures PrefixFree(files) <==> Apart(files)
  {
    forall i, j | 0 <= i < |files| && 0 <= j < |files|
      ensures Relative(files[i]) <= Relative(files[j])
         <==> files[i].path == files[j].path || files[i].path + Lit("/") <= files[j].path
    {
      PathReads(files[i]);
      PathReads(files[j]);
      hide Proper, ValidName, Split, Join;
      PrefixByText(files[i], files[j], root);
    }
  }

  lemma PrefixByText(f: Selected, g: Selected, root: Text)
    requires WayTo(root, Relative(f), f) && WayTo(root, Relative(g), g)
    ensures Relative(f) <= Relative(g) <==> f.path == g.path || f.path + Lit("/") <= g.path
  {
    hide Proper, Join, Split;
    assert Lit("/") == [PATH_SLASH];
    JoinPrefixIff(Relative(f), Relative(g));
    var front, a, b := root + [PATH_SLASH], Join(Relative(f), PATH_SLASH), Join(Relative(g), PATH_SLASH);
    SameFront(front, a, b);
    SameFront(front, a + [PATH_SLASH], b);
    assert front + (a + [PATH_SLASH]) == front + a + [PATH_SLASH];
  }

  lemma SameFront(front: Text, a: Text, b: Text)
    ensures a == b <==> front + a == front + b
    ensures a <= b <==> front + a <= front + b
  {
    assert (front + a)[|front|..] == a && (front + b)[|front|..] == b;
  }

  /**
   * What an accepted selection is, by its texts: every path is the one root and proper names down to the file's own,
   * with slashes between, and no path is another's or continues it.
   */
  lemma AcceptableIff(files: seq<Selected>)
    ensures Acceptable(files)
       <==> && files != [] && Apart(files)
            && exists root :: Proper(root) && forall i | 0 <= i < |files| :: PathUnder(root, files[i])
  {
    hide Proper, ValidPath, Named, WayTo, PrefixFree, Apart;
    if Acceptable(files) {
      var root := Parts(files[0])[0];
      forall i | 0 <= i < |files|
        ensures PathUnder(root, files[i]) && Proper(root)
      {
        PathReads(files[i]);
      }
      PathReads(files[0]);
      ApartIff(files, root);
    }
    if root :| files != [] && Proper(root) && forall i | 0 <= i < |files| :: PathUnder(root, files[i]) {
      forall i | 0 <= i < |files|
        ensures ValidPath(Parts(files[i])) && Named(files[i]) && Parts(files[i])[0] == root
      {
        var below :| WayTo(root, below, files[i]);
        WayReads(root, below, files[i]);
      }
      ApartIff(files, root);
    }
  }

  /** Every name in the tree, at any depth, is a proper one. */
  ghost predicate ProperTree(es: seq<Entry>) {
    forall e | e in es :: Proper(e.name) && (e.DirEntry? ==> ProperTree(e.children))
  }

  lemma {:induction false} ProperLeaves(es: seq<Entry>)
    requires WellFormedTree(es)
    requires forall l, name | l in Leaves(es) && name in l.path :: Proper(name)
    ensures ProperTree(es)
    decreases es
  {
    hide Proper;
    forall e | e in es
      ensures Proper(e.name) && (e.DirEntry? ==> ProperTree(e.children))
    {
      var i :| 0 <= i < |es| && es[i] == e;
      assert forall l | l in EntryLeaves(e) :: l in Leaves(es);
      if e.FileEntry? {
        var l := Leaf([e.name], e.name, e.obj, e.size);
        assert l in EntryLeaves(e) && e.name in l.path;
      } else {
        NonEmptyLeaves(e.children);
        var m :| m in Leaves(e.children);
        var l := m.(path := [e.name] + m.path);
        assert l in EntryLeaves(e) && e.name in l.path;
        forall n, name | n in Leaves(e.children) && name in n.path
          ensures Proper(name)
        {
          var k := n.(path := [e.name] + n.path);
          assert k in EntryLeaves(e) && name in k.path;
        }
        ProperLeaves(e.children);
      }
    }
  }

  /** A tree built from an accepted selection holds proper names only. */
  lemma AcceptedProper(files: seq<Selected>, es: seq<Entry>)
    requires Acceptable(files) && WellFormedTree(es) && Leaves(es) == LeavesFor(files)
    ensures ProperTree(es)
  {
    hide Proper, ValidName, Leaves, WellFormedTree, PrefixFree, Split;
    forall l, name | l in Leaves(es) && name in l.path
      ensures Proper(name)
    {
      var i :| 0 <= i < |files| && l == LeafOf(files[i]);
      var k :| 0 <= k < |l.path| && l.path[k] == name;
      assert name == Parts(files[i])[k + 1];
      ValidNameIff(name);
    }
    ProperLeaves(es);
  }
}
