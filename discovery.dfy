/** File discovery of `get_all_files`: a top-down walk of the upload folder
    that prunes noise directories by exact name and keeps the files whose
    lower-cased extension is on the allow-list.  The folder is an in-memory
    tree, and a path is the list of its components below the walked folder,
    so joining a directory path with a file name appends one component. */
module Discovery {

  /** The extensions `get_all_files` keeps, compared after lower-casing. */
  const AllowedExt: set<string> := {".py", ".js", ".ts", ".html", ".css", ".json", ".md", ".txt", ".yml", ".yaml"}

  /** Directory names that are never descended into (compared exactly). */
  const SkipDirs: set<string> := {".git", "__pycache__", "node_modules", ".idea", ".vscode"}

  // ---------------------------------------------------------------------
  // Extensions.
  // ---------------------------------------------------------------------

  /** ASCII lower-casing of one character. */
  function LowerChar(c: char): char {
    if 'A' <= c <= 'Z' then (c as int + 32) as char else c
  }

  /** ASCII lower-casing of a string, as `str.lower` does on ASCII text. */
  function Lower(s: string): (r: string)
    ensures |r| == |s|
  {
    seq(|s|, i requires 0 <= i < |s| => LowerChar(s[i]))
  }

  /** No character of `s` after index `d` is a dot. */
  predicate NoDotAfter(s: string, d: int) {
    forall i :: 0 <= i < |s| && d < i ==> s[i] != '.'
  }

  /** Every character of `s` before index `d` is a dot. */
  predicate OnlyDotsBefore(s: string, d: int) {
    forall i :: 0 <= i < d && i < |s| ==> s[i] == '.'
  }

  /** `d` is the dot `splitext` cuts a bare name at: the last dot, with
      something other than dots before it. */
  predicate ExtDot(name: string, d: int) {
    0 <= d < |name| && name[d] == '.' && NoDotAfter(name, d) && !OnlyDotsBefore(name, d)
  }

  /** Index of the last dot among the first `n` characters of `s`, or -1
      when there is none. */
  function LastDotBefore(s: string, n: nat): (r: int)
    requires n <= |s|
    ensures -1 <= r < n
    ensures r >= 0 ==> s[r] == '.'
    ensures forall i :: r < i < n ==> s[i] != '.'
  {
    if n == 0 then -1
    else if s[n - 1] == '.' then n - 1
    else LastDotBefore(s, n - 1)
  }

  /** Index of the last dot of `s`, or -1 when there is none (`str.rfind`). */
  function LastDot(s: string): (r: int)
    ensures -1 <= r < |s|
    ensures r >= 0 ==> s[r] == '.'
    ensures NoDotAfter(s, r)
  {
    LastDotBefore(s, |s|)
  }

  /** `os.path.splitext` of a bare file name: the extension runs from the
      last dot to the end, unless nothing but dots comes before that dot, in
      which case there is no extension. */
  function SplitExt(name: string): (r: (string, string))
    ensures r.0 + r.1 == name
    ensures r.1 != [] ==> ExtDot(name, |r.0|)
    ensures r.1 == [] ==> forall d :: !ExtDot(name, d)
  {
    var dot := LastDot(name);
    if dot >= 0 && !OnlyDotsBefore(name, dot) then
      assert name[..dot] + name[dot..] == name;
      (name[..dot], name[dot..])
    else
      forall d ensures !ExtDot(name, d) {
        if ExtDot(name, d) {
          LastDotUnique(name, d);
        }
      }
      (name, [])
  }

  /** The only dot with no dot after it is the last one. */
  lemma LastDotUnique(s: string, d: int)
    requires 0 <= d < |s| && s[d] == '.' && NoDotAfter(s, d)
    ensures d == LastDot(s)
  {
  }

  /** The extension `get_all_files` looks at. */
  function Ext(name: string): string {
    SplitExt(name).1
  }

  /** `get_all_files` keeps a file exactly when its lower-cased extension is
      on the allow-list. */
  predicate Kept(name: string)
    ensures Kept(name) ==> Ext(name) != []
  {
    Lower(Ext(name)) in AllowedExt
  }

  lemma LowerIdempotent(s: string)
    ensures Lower(Lower(s)) == Lower(s)
  {
  }

  /** Lower-casing leaves every dot where it was. */
  lemma {:induction false} LastDotLower(s: string, n: nat)
    requires n <= |s|
    ensures LastDotBefore(Lower(s), n) == LastDotBefore(s, n)
  {
    if n > 0 {
      assert Lower(s)[n - 1] == LowerChar(s[n - 1]);
      LastDotLower(s, n - 1);
    }
  }

  /** Lower-casing a name lower-cases its extension and nothing more. */
  lemma ExtLower(name: string)
    ensures Ext(Lower(name)) == Lower(Ext(name))
  {
    var low := Lower(name);
    LastDotLower(name, |name|);
    var dot := LastDot(name);
    if dot >= 0 {
      assert OnlyDotsBefore(low, dot) == OnlyDotsBefore(name, dot) by {
        forall i | 0 <= i < dot ensures (low[i] == '.') == (name[i] == '.') {
          assert low[i] == LowerChar(name[i]);
        }
      }
      assert low[dot..] == Lower(name[dot..]);
    }
  }

  /** Matching is case-insensitive: names that agree after lower-casing are
      kept or dropped together, so `A.MD` is kept like `a.md`. */
  lemma KeptCaseInsensitive(a: string, b: string)
    requires Lower(a) == Lower(b)
    ensures Kept(a) == Kept(b)
  {
    ExtLower(a);
    ExtLower(b);
    LowerIdempotent(Ext(a));
    LowerIdempotent(Ext(b));
  }

  /** A name has an extension exactly when it has such a dot, and then the
      extension is the suffix from that dot. */
  lemma ExtCharacterised(name: string)
    ensures Ext(name) != [] <==> exists d :: ExtDot(name, d)
    ensures forall d :: ExtDot(name, d) ==> Ext(name) == name[d..]
  {
    var r := SplitExt(name);
    if r.1 != [] {
      var d := |r.0|;
      assert name[d..] == r.1;
      forall e | ExtDot(name, e) ensures e == d {
        LastDotUnique(name, e);
        LastDotUnique(name, d);
      }
    }
  }

  /** Names `get_all_files` keeps and drops: an upper-case extension is
      kept, a dot file has no extension, and only the last suffix counts. */
  lemma KeptExamples()
    ensures Kept("A.MD")
    ensures !Kept(".md")
    ensures !Kept("notes.md.bak")
  {
    LastDotUnique("A.MD", 1);
    assert "A.MD"[0] != '.';
    assert "A.MD"[..1] + ".MD" == "A.MD";
    assert Lower(".MD") == ".md";
    LastDotUnique(".md", 0);
    LastDotUnique("notes.md.bak", 8);
    assert "notes.md.bak"[0] != '.';
    assert "notes.md.bak"[..8] + ".bak" == "notes.md.bak";
    assert Lower(".bak") == ".bak";
  }

  // ---------------------------------------------------------------------
  // The walk.  It is stated for any file test `keep`; `get_all_files` uses
  // `Kept`.
  // ---------------------------------------------------------------------

  /** A directory of the uploaded tree, with its file names and
      subdirectories in listing order. */
  datatype Dir = Dir(name: string, files: seq<string>, subdirs: seq<Dir>)

  /** A path below the walked folder, one component per element. */
  type Path = seq<string>

  /** A directory waiting on the walk's stack, with its path. */
  datatype Frame = Frame(dir: Dir, path: Path)

  /** A subdirectory whose name is in the skip set is not descended into. */
  predicate Pruned(d: Dir) {
    d.name in SkipDirs
  }

  /** The subdirectory list after `dirs[:] = [d for d in dirs if d not in
      skip_dirs]`. */
  function Prune(ds: seq<Dir>): (r: seq<Dir>)
    ensures |r| <= |ds|
  {
    if ds == [] then []
    else (if Pruned(ds[0]) then [] else [ds[0]]) + Prune(ds[1..])
  }

  /** Pruning keeps exactly the subdirectories whose name is not skipped. */
  lemma {:induction false} PruneMembers(ds: seq<Dir>, d: Dir)
    ensures d in Prune(ds) <==> d in ds && !Pruned(d)
  {
    if ds != [] {
      PruneMembers(ds[1..], d);
      assert ds == [ds[0]] + ds[1..];
    }
  }

  /** Pruning keeps the relative order of what it keeps: it distributes over
      concatenation. */
  lemma {:induction false} PruneAppend(a: seq<Dir>, b: seq<Dir>)
    ensures Prune(a + b) == Prune(a) + Prune(b)
  {
    if a != [] {
      var head := if Pruned(a[0]) then [] else [a[0]];
      assert (a + b)[0] == a[0];
      assert (a + b)[1..] == a[1..] + b;
      assert Prune(a + b) == head + Prune(a[1..] + b);
      PruneAppend(a[1..], b);
      assert Prune(a) == head + Prune(a[1..]);
    } else {
      assert a + b == b;
    }
  }

  /** The paths of the files among `files` that pass `keep`, in order, in the
      directory at `at`. */
  function KeptFiles(files: seq<string>, at: Path, keep: string -> bool): seq<Path> {
    if files == [] then []
    else
      var f := files[|files| - 1];
      KeptFiles(files[..|files| - 1], at, keep) + (if keep(f) then [at + [f]] else [])
  }

  /** The paths the walk returns for the tree `d` whose own path is `at`: its
      kept files, then, subdirectory by subdirectory, everything below the
      ones that are not pruned. */
  function Collect(d: Dir, at: Path, keep: string -> bool): seq<Path>
    decreases d
  {
    KeptFiles(d.files, at, keep) + CollectDirs(d.subdirs, at, keep)
  }

  function CollectDirs(ds: seq<Dir>, at: Path, keep: string -> bool): seq<Path>
    decreases ds
  {
    if ds == [] then []
    else (if Pruned(ds[0]) then [] else Collect(ds[0], at + [ds[0].name], keep)) + CollectDirs(ds[1..], at, keep)
  }

  /** `rel` names a file below `d` that passes `keep`, reached through
      subdirectories none of which is pruned; the name of `d` itself plays no
      part. */
  ghost predicate Reachable(d: Dir, rel: Path, keep: string -> bool)
    decreases d, 1
  {
    || (|rel| == 1 && rel[0] in d.files && keep(rel[0]))
    || (|rel| > 1 && exists i :: 0 <= i < |d.subdirs| && ReachableVia(d.subdirs[i], rel, keep))
  }

  /** `rel` goes down into `sub`, which is not pruned, and on from there. */
  ghost predicate ReachableVia(sub: Dir, rel: Path, keep: string -> bool)
    requires |rel| > 1
    decreases sub, 2
  {
    !Pruned(sub) && sub.name == rel[0] && Reachable(sub, rel[1..], keep)
  }

  /** The walk returns exactly the files that pass `keep` and are reachable
      without entering a pruned directory; the walked folder itself is never
      pruned, whatever its name. */
  lemma {:induction false} CollectMembers(d: Dir, at: Path, keep: string -> bool, p: Path)
    ensures p in Collect(d, at, keep) <==> |p| > |at| && p[..|at|] == at && Reachable(d, p[|at|..], keep)
    decreases d
  {
    CollectDirsMembers(d.subdirs, at, keep, p);
    KeptFilesMembers(d.files, at, keep, p);
    if |p| > |at| {
      assert p[|at|..][0] == p[|at|];
    }
  }

  lemma {:induction false} KeptFilesMembers(files: seq<string>, at: Path, keep: string -> bool, p: Path)
    ensures p in KeptFiles(files, at, keep) <==>
      |p| == |at| + 1 && p[..|at|] == at && p[|at|] in files && keep(p[|at|])
  {
    if files != [] {
      var init := files[..|files| - 1];
      var f := files[|files| - 1];
      KeptFilesMembers(init, at, keep, p);
      assert files == init + [f];
      if |p| == |at| + 1 && p[..|at|] == at {
        assert p == at + [p[|at|]];
      }
      assert (at + [f])[..|at|] == at && (at + [f])[|at|] == f;
    }
  }

  lemma {:induction false} CollectDirsMembers(ds: seq<Dir>, at: Path, keep: string -> bool, p: Path)
    ensures p in CollectDirs(ds, at, keep) <==>
      |p| > |at| + 1 && p[..|at|] == at && exists i :: 0 <= i < |ds| && ReachableVia(ds[i], p[|at|..], keep)
    decreases ds
  {
    if ds != [] {
      var d := ds[0];
      var here := if Pruned(d) then [] else Collect(d, at + [d.name], keep);
      CollectDirsMembers(ds[1..], at, keep, p);
      assert p in CollectDirs(ds, at, keep) <==> p in here || p in CollectDirs(ds[1..], at, keep);
      ChildPath(p, at, d.name);
      if !Pruned(d) {
        CollectMembers(d, at + [d.name], keep, p);
      }
      if |p| > |at| + 1 {
        ReachableViaSplit(ds, p[|at|..], keep);
      }
    }
  }

  /** `p` lies below `at + [n]` exactly when it lies below `at` and its next
      component is `n`. */
  lemma ChildPath(p: Path, at: Path, n: string)
    ensures (|p| > |at + [n]| && p[..|at + [n]|] == at + [n]) <==> (|p| > |at| + 1 && p[..|at|] == at && p[|at|] == n)
    ensures |p| > |at| + 1 ==> p[|at + [n]|..] == p[|at|..][1..] && p[|at|..][0] == p[|at|]
  {
    if |p| > |at| + 1 {
      assert p[..|at| + 1] == p[..|at|] + [p[|at|]];
    }
  }

  lemma ReachableViaSplit(ds: seq<Dir>, rel: Path, keep: string -> bool)
    requires ds != [] && |rel| > 1
    ensures (exists i :: 0 <= i < |ds| && ReachableVia(ds[i], rel, keep)) <==>
            ReachableVia(ds[0], rel, keep) || (exists i :: 0 <= i < |ds[1..]| && ReachableVia(ds[1..][i], rel, keep))
  {
    if exists i :: 0 <= i < |ds| && ReachableVia(ds[i], rel, keep) {
      var i :| 0 <= i < |ds| && ReachableVia(ds[i], rel, keep);
      if i > 0 { assert ds[1..][i - 1] == ds[i]; }
    }
    if exists i :: 0 <= i < |ds[1..]| && ReachableVia(ds[1..][i], rel, keep) {
      var i :| 0 <= i < |ds[1..]| && ReachableVia(ds[1..][i], rel, keep);
      assert ds[i + 1] == ds[1..][i];
    }
  }

  /** Every path `get_all_files` returns ends in a name whose extension is
      allowed, and none of its directories is a skipped one. */
  lemma {:induction false} ReachableSafe(d: Dir, rel: Path)
    requires Reachable(d, rel, Kept)
    ensures |rel| >= 1 && Kept(rel[|rel| - 1])
    ensures forall k :: 0 <= k < |rel| - 1 ==> rel[k] !in SkipDirs
    decreases d
  {
    if |rel| > 1 {
      var i :| 0 <= i < |d.subdirs| && ReachableVia(d.subdirs[i], rel, Kept);
      var sub := d.subdirs[i];
      ReachableSafe(sub, rel[1..]);
      forall k | 0 <= k < |rel| - 1 ensures rel[k] !in SkipDirs {
        if k > 0 { assert rel[k] == rel[1..][k - 1]; }
      }
    }
  }

  /** The number of directories in a tree, which bounds the walk. */
  function Size(d: Dir): nat
    decreases d
  {
    1 + SizeEach(d.subdirs)
  }

  function SizeEach(ds: seq<Dir>): nat
    decreases ds
  {
    if ds == [] then 0 else Size(ds[0]) + SizeEach(ds[1..])
  }

  lemma {:induction false} SizePrune(ds: seq<Dir>)
    ensures SizeEach(Prune(ds)) <= SizeEach(ds)
  {
    if ds != [] {
      SizePrune(ds[1..]);
      var r := Prune(ds);
      if Pruned(ds[0]) {
        assert r == Prune(ds[1..]);
      } else {
        assert r == [ds[0]] + Prune(ds[1..]);
        assert r[0] == ds[0] && r[1..] == Prune(ds[1..]);
        assert SizeEach(r) == Size(ds[0]) + SizeEach(Prune(ds[1..]));
      }
    }
  }

  /** Everything below each of `ds`, without pruning `ds` themselves. */
  function CollectEach(ds: seq<Dir>, at: Path, keep: string -> bool): seq<Path> {
    if ds == [] then [] else Collect(ds[0], at + [ds[0].name], keep) + CollectEach(ds[1..], at, keep)
  }

  lemma {:induction false} CollectEachPrune(ds: seq<Dir>, at: Path, keep: string -> bool)
    ensures CollectEach(Prune(ds), at, keep) == CollectDirs(ds, at, keep)
  {
    if ds != [] {
      CollectEachPrune(ds[1..], at, keep);
      var r := Prune(ds);
      if Pruned(ds[0]) {
        assert r == Prune(ds[1..]);
      } else {
        assert r == [ds[0]] + Prune(ds[1..]);
        assert r[0] == ds[0] && r[1..] == Prune(ds[1..]);
        assert CollectEach(r, at, keep) == Collect(ds[0], at + [ds[0].name], keep) + CollectEach(Prune(ds[1..]), at, keep);
      }
    }
  }

  /** The paths still to come from the directories on the stack, top first. */
  function Pending(stack: seq<Frame>, keep: string -> bool): seq<Path> {
    if stack == [] then []
    else
      var top := stack[|stack| - 1];
      Collect(top.dir, top.path, keep) + Pending(stack[..|stack| - 1], keep)
  }

  /** The number of directories still to visit. */
  function StackSize(stack: seq<Frame>): nat {
    if stack == [] then 0 else Size(stack[|stack| - 1].dir) + StackSize(stack[..|stack| - 1])
  }

  /** Pushing one frame onto the stack. */
  lemma PushFrame(stack: seq<Frame>, f: Frame, keep: string -> bool)
    ensures Pending(stack + [f], keep) == Collect(f.dir, f.path, keep) + Pending(stack, keep)
    ensures StackSize(stack + [f]) == Size(f.dir) + StackSize(stack)
  {
    assert (stack + [f])[..|stack|] == stack;
  }

  /** Popping the top frame off the stack. */
  lemma PopFrame(stack: seq<Frame>, keep: string -> bool)
    requires stack != []
    ensures var top := stack[|stack| - 1];
      && Pending(stack, keep) == KeptFiles(top.dir.files, top.path, keep) + CollectDirs(top.dir.subdirs, top.path, keep)
                                 + Pending(stack[..|stack| - 1], keep)
      && StackSize(stack) == 1 + SizeEach(top.dir.subdirs) + StackSize(stack[..|stack| - 1])
  {
  }

  lemma Regroup(a: seq<Path>, b: seq<Path>, c: seq<Path>, d: seq<Path>)
    ensures a + (b + c + d) == (a + b) + (c + d)
  {
  }

  /** One more file seen by the inner loop of the walk. */
  lemma KeptFilesStep(files: seq<string>, i: nat, at: Path, keep: string -> bool)
    requires i < |files|
    ensures KeptFiles(files[..i + 1], at, keep)
         == KeptFiles(files[..i], at, keep) + (if keep(files[i]) then [at + [files[i]]] else [])
  {
    assert files[..i + 1][..i] == files[..i];
  }

  /** The inner file loop of the walk: appends the path of every file of
      `files` that passes `keep`, in order. */
  method AppendKeptFiles(fileList: seq<Path>, files: seq<string>, at: Path, keep: string -> bool)
    returns (out: seq<Path>)
    ensures out == fileList + KeptFiles(files, at, keep)
  {
    out := fileList;
    var i := 0;
    while i < |files|
      invariant 0 <= i <= |files|
      invariant out == fileList + KeptFiles(files[..i], at, keep)
    {
      var file := files[i];
      KeptFilesStep(files, i, at, keep);
      if keep(file) {
        out := out + [at + [file]];
      }
      i := i + 1;
    }
    assert files[..i] == files;
  }

  /** The frames of the subdirectories `ds` of the directory at `at`, in
      listing order. */
  function Frames(ds: seq<Dir>, at: Path): seq<Frame> {
    if ds == [] then [] else [Frame(ds[0], at + [ds[0].name])] + Frames(ds[1..], at)
  }

  /** `s` back to front. */
  function Reversed<T>(s: seq<T>): seq<T> {
    if s == [] then [] else Reversed(s[1..]) + [s[0]]
  }

  /** Pushing the frame of `dirs[j]` extends the reversed frames of
      `dirs[j + 1..]` to those of `dirs[j..]`. */
  lemma PushStep(stack: seq<Frame>, dirs: seq<Dir>, j: nat, at: Path)
    requires j < |dirs|
    ensures stack + Reversed(Frames(dirs[j..], at))
         == (stack + Reversed(Frames(dirs[j + 1..], at))) + [Frame(dirs[j], at + [dirs[j].name])]
  {
    var ds := dirs[j..];
    assert ds[0] == dirs[j] && ds[1..] == dirs[j + 1..];
    var fs := Frames(ds, at);
    assert fs == [Frame(dirs[j], at + [dirs[j].name])] + Frames(dirs[j + 1..], at);
    assert fs[0] == Frame(dirs[j], at + [dirs[j].name]) && fs[1..] == Frames(dirs[j + 1..], at);
    assert Reversed(fs) == Reversed(fs[1..]) + [fs[0]];
  }

  /** `stack.extend(reversed(dirs))`: pushes the subdirectories last first,
      so that the first of them is on top. */
  method PushReversed(stack: seq<Frame>, dirs: seq<Dir>, at: Path, keep: string -> bool)
    returns (out: seq<Frame>)
    ensures out == stack + Reversed(Frames(dirs, at))
    ensures Pending(out, keep) == CollectEach(dirs, at, keep) + Pending(stack, keep)
    ensures StackSize(out) == SizeEach(dirs) + StackSize(stack)
  {
    out := stack;
    var j := |dirs|;
    while j > 0
      invariant 0 <= j <= |dirs|
      invariant out == stack + Reversed(Frames(dirs[j..], at))
      invariant Pending(out, keep) == CollectEach(dirs[j..], at, keep) + Pending(stack, keep)
      invariant StackSize(out) == SizeEach(dirs[j..]) + StackSize(stack)
    {
      j := j - 1;
      PushFrame(out, Frame(dirs[j], at + [dirs[j].name]), keep);
      assert dirs[j..][1..] == dirs[j + 1..];
      PushStep(stack, dirs, j, at);
      out := out + [Frame(dirs[j], at + [dirs[j].name])];
    }
    assert dirs[0..] == dirs;
  }

  /** The walk of `get_all_files`: pop a directory, keep the files that pass
      `keep`, prune its subdirectories and push the rest in reverse so that
      they are visited in listing order. */
  method Walk(root: Dir, keep: string -> bool) returns (fileList: seq<Path>)
    ensures fileList == Collect(root, [], keep)
  {
    fileList := [];
    var stack := [Frame(root, [])];
    assert stack[..0] == [];
    while stack != []
      invariant fileList + Pending(stack, keep) == Collect(root, [], keep)
      decreases StackSize(stack)
    {
      PopFrame(stack, keep);
      var top := stack[|stack| - 1];
      stack := stack[..|stack| - 1];
      ghost var base := stack;
      ghost var before := fileList;
      var dirs := Prune(top.dir.subdirs);
      fileList := AppendKeptFiles(fileList, top.dir.files, top.path, keep);
      stack := PushReversed(stack, dirs, top.path, keep);
      CollectEachPrune(top.dir.subdirs, top.path, keep);
      SizePrune(top.dir.subdirs);
      Regroup(before, KeptFiles(top.dir.files, top.path, keep),
        CollectDirs(top.dir.subdirs, top.path, keep), Pending(base, keep));
    }
  }

  /** `get_all_files`: the walk with the allow-list test. */
  method GetAllFiles(root: Dir) returns (fileList: seq<Path>)
    ensures forall p :: p in fileList <==> |p| >= 1 && Reachable(root, p, Kept)
    ensures forall p :: p in fileList ==>
      Kept(p[|p| - 1]) && forall k :: 0 <= k < |p| - 1 ==> p[k] !in SkipDirs
    ensures fileList == Collect(root, [], Kept)
  {
    fileList := Walk(root, Kept);
    forall p ensures p in fileList <==> |p| >= 1 && Reachable(root, p, Kept) {
      CollectMembers(root, [], Kept, p);
      assert p[..0] == [] && p[0..] == p;
    }
    forall p | p in fileList
      ensures Kept(p[|p| - 1]) && forall k :: 0 <= k < |p| - 1 ==> p[k] !in SkipDirs
    {
      ReachableSafe(root, p);
    }
  }
}
