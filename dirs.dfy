/** Dir, the handle on a directory. Its path is fixed when the handle is
    built, so a Dir is a value; its operations read, and touch changes, the
    host's filesystem. Dir::delete, clear and write work through File
    handles and are modelled in module DirTree. */
module Dirs {
  import opened Text
  import opened Errors
  import opened Paths
  import Os

  datatype Dir = Dir(path: DirPath)

  /** new Dir(path): the path through Dir::realPath. */
  function NewDir(input: PathInput, base: string): Dir {
    Dir(DirRealPath(input, base))
  }

  /** assertIsDir: fails when something other than a directory is at the path. */
  function AssertIsDir(fs: Os.Fs, d: Dir): Outcome {
    if Os.PathExists(fs, d.path) && !Os.IsDir(fs, d.path) then Fail(NotADirectory(d.path)) else Pass
  }

  /** Dir::exists */
  function Exists(fs: Os.Fs, d: Dir): Result<bool> {
    if AssertIsDir(fs, d).Fail? then Err(NotADirectory(d.path)) else Ok(Os.IsDir(fs, d.path))
  }

  /** Dir::isReadable */
  function IsReadable(fs: Os.Fs, d: Dir): Result<bool> {
    if AssertIsDir(fs, d).Fail? then Err(NotADirectory(d.path)) else Ok(Os.IsReadable(fs, d.path))
  }

  // ----------------------------------------------------------- isWritable

  /** What the walk of Dir::isWritable answers from q: the writability of the
      first existing directory on the way up through getParent, false when
      the root is passed without one, NotADirectory when something other than
      a directory is met first. */
  function WalkWritable(fs: Os.Fs, base: string, q: DirPath): Result<bool>
    requires ValidBase(base)
    decreases WalkRank(q), |q|
  {
    if Os.PathExists(fs, q) && !Os.IsDir(fs, q) then Err(NotADirectory(q))
    else if Os.IsDir(fs, q) then Ok(Os.IsWritable(fs, q))
    else if IsRoot(q) then Ok(false)
    else
      ParentDirPathDecreases(q, base);
      WalkWritable(fs, base, ParentDirPath(q, base))
  }

  /** Dir::isWritable */
  method IsWritable(host: Os.Host, d: Dir) returns (r: Result<bool>)
    requires host.Valid()
    ensures r == WalkWritable(host.fs, host.libDir, d.path)
  {
    if AssertIsDir(host.fs, d).Fail? {
      return Err(NotADirectory(d.path));
    }
    var dir := d;
    while true
      invariant WalkWritable(host.fs, host.libDir, dir.path) == WalkWritable(host.fs, host.libDir, d.path)
      decreases WalkRank(dir.path), |dir.path|
    {
      var e := Exists(host.fs, dir);
      if e.Err? {
        return Err(e.error);
      }
      if e.value {
        return Ok(Os.IsWritable(host.fs, dir.path));
      }
      if IsRoot(dir.path) {
        break;
      }
      ParentDirPathDecreases(dir.path, host.libDir);
      dir := Dir(DirParent(dir.path, host.libDir).value);
    }
    return Ok(false);
  }

  /** The walk's answer stated on the tree: the writability of the deepest
      existing location at or above l, which has to be a directory. */
  ghost function TreeWritable(fs: Os.Fs, l: string): Result<bool>
    requires Os.WellFormed(fs)
  {
    var a := Os.NearestExisting(fs.nodes, l);
    if a !in fs.nodes then Ok(false)
    else if fs.nodes[a].DirNode? then Ok(fs.nodes[a].writable)
    else Err(NotADirectory(a + [Sep]))
  }

  lemma WalkAtExisting(fs: Os.Fs, base: string, l: string)
    requires ValidBase(base) && CanonicalLoc(l) && l in fs.nodes
    ensures WalkWritable(fs, base, DirOf(l)) ==
      if fs.nodes[l].DirNode? then Ok(fs.nodes[l].writable) else Err(NotADirectory(l + [Sep]))
  {
    Os.ResolveCanonical(l);
    assert Os.Lookup(fs, DirOf(l)) == Some(fs.nodes[l]);
  }

  lemma WalkAtMissing(fs: Os.Fs, base: string, l: string)
    requires ValidBase(base) && CanonicalLoc(l) && l != "" && l !in fs.nodes
    ensures CanonicalLoc(ParentLoc(l))
    ensures WalkWritable(fs, base, DirOf(l)) == WalkWritable(fs, base, DirOf(ParentLoc(l)))
  {
    var q := DirOf(l);
    Os.ResolveCanonical(l);
    assert !Os.PathExists(fs, q) && !IsRoot(q);
    CanonicalParent(l);
    ParentOfCanonical(l, base);
    assert ParentDirPath(q, base) == DirOf(ParentLoc(l));
  }

  /** From a canonical location the walk over path strings meets the same
      node as the walk up the tree. */
  lemma {:induction false} WalkWritableOnTree(fs: Os.Fs, base: string, l: string)
    requires Os.WellFormed(fs) && ValidBase(base) && CanonicalLoc(l)
    ensures WalkWritable(fs, base, DirOf(l)) == TreeWritable(fs, l)
    decreases |l|
  {
    if l in fs.nodes {
      WalkAtExisting(fs, base, l);
    } else {
      WalkAtMissing(fs, base, l);
      WalkWritableOnTree(fs, base, ParentLoc(l));
    }
  }

  // ---------------------------------------------------------------- touch

  /** An outcome, and the filesystem the operation leaves behind. */
  datatype Change = Change(outcome: Outcome, fs: Os.Fs)

  /** Dir::touch on a filesystem. A directory that exists is left alone; a
      missing one is created with its missing parents when the walk finds a
      writable directory. A failing mkdir goes unreported: the exception for
      it is built but never thrown. */
  function TouchOn(fs: Os.Fs, base: string, d: Dir): Change
    requires ValidBase(base)
  {
    match Exists(fs, d)
    case Err(e) => Change(Fail(e), fs)
    case Ok(present) =>
      if present then Change(Pass, fs)
      else
        match WalkWritable(fs, base, d.path)
        case Err(e) => Change(Fail(e), fs)
        case Ok(writable) =>
          if !writable then Change(Fail(PathNotWritable(d.path)), fs)
          else Change(Pass, Os.Mkdir(fs, d.path).fs)
  }

  /** Dir::touch */
  method Touch(host: Os.Host, d: Dir) returns (r: Outcome)
    requires host.Valid()
    modifies host
    ensures host.Valid()
    ensures Change(r, host.fs) == TouchOn(old(host.fs), host.libDir, d)
  {
    var e := Exists(host.fs, d);
    if e.Err? {
      return Fail(e.error);
    }
    if !e.value {
      var w := IsWritable(host, d);
      if w.Err? {
        return Fail(w.error);
      }
      if !w.value {
        return Fail(PathNotWritable(d.path));
      }
      Os.MkdirEffect(host.fs, d.path);
      var made := Os.Mkdir(host.fs, d.path);
      host.fs := made.fs;
    }
    return Pass;
  }

  /** touch keeps the tree and every node in it. */
  lemma TouchKeeps(fs: Os.Fs, base: string, d: Dir)
    requires Os.WellFormed(fs) && ValidBase(base)
    ensures Os.WellFormed(TouchOn(fs, base, d).fs) && Os.Keeps(fs, TouchOn(fs, base, d).fs)
    ensures forall k :: k in TouchOn(fs, base, d).fs.nodes && k !in fs.nodes ==>
      && TouchOn(fs, base, d).fs.nodes[k] == Os.DirNode(true, true)
      && Os.Resolve(d.path).Some? && Os.AtOrAbove(k, Os.Resolve(d.path).value)
  {
    var c := TouchOn(fs, base, d);
    assert c.fs == fs || c.fs == Os.Mkdir(fs, d.path).fs;
    Os.MkdirEffect(fs, d.path);
  }

  /** On a canonical location, whenever touch succeeds a directory is there afterwards. */
  lemma TouchMakesDir(fs: Os.Fs, base: string, l: string)
    requires Os.WellFormed(fs) && ValidBase(base) && CanonicalLoc(l)
    ensures var c := TouchOn(fs, base, Dir(DirOf(l)));
      c.outcome.Pass? ==> l in c.fs.nodes && c.fs.nodes[l].DirNode?
  {
    var d := Dir(DirOf(l));
    var c := TouchOn(fs, base, d);
    Os.ResolveCanonical(l);
    if l in fs.nodes {
      if fs.nodes[l].DirNode? {
        TouchExisting(fs, base, l);
      } else {
        assert Exists(fs, d) == Err(NotADirectory(d.path));
        assert c == Change(Fail(NotADirectory(d.path)), fs);
      }
    } else {
      assert Exists(fs, d) == Ok(false);
      if WalkWritable(fs, base, d.path) == Ok(true) {
        TouchCreatesDir(fs, base, l);
      } else if WalkWritable(fs, base, d.path).Err? {
        assert c == Change(Fail(WalkWritable(fs, base, d.path).error), fs);
      } else {
        assert c == Change(Fail(PathNotWritable(d.path)), fs);
      }
    }
  }

  /** When the walk up the tree finds a writable directory, touch succeeds
      and leaves a writable directory at l. */
  lemma TouchWritableDir(fs: Os.Fs, base: string, l: string)
    requires Os.WellFormed(fs) && ValidBase(base) && CanonicalLoc(l)
    requires TreeWritable(fs, l) == Ok(true)
    ensures var c := TouchOn(fs, base, Dir(DirOf(l)));
      c.outcome.Pass? && Os.WritableDir(c.fs, l)
  {
    if l in fs.nodes {
      assert Os.NearestExisting(fs.nodes, l) == l;
      TouchExisting(fs, base, l);
    } else {
      WalkWritableOnTree(fs, base, l);
      TouchCreatesDir(fs, base, l);
    }
  }

  /** A directory that mkdir creates is readable and writable. */
  lemma TouchCreatesDir(fs: Os.Fs, base: string, l: string)
    requires Os.WellFormed(fs) && ValidBase(base) && CanonicalLoc(l) && l !in fs.nodes
    requires WalkWritable(fs, base, DirOf(l)) == Ok(true)
    ensures var c := TouchOn(fs, base, Dir(DirOf(l)));
      c.outcome.Pass? && Os.WritableDir(c.fs, l)
  {
    var d := Dir(DirOf(l));
    Os.ResolveCanonical(l);
    assert Exists(fs, d) == Ok(false);
    assert TouchOn(fs, base, d) == Change(Pass, Os.Mkdir(fs, d.path).fs);
    WalkWritableOnTree(fs, base, l);
    Os.MkdirCreates(fs, l);
  }

  /** touch on an existing directory succeeds and changes nothing. */
  lemma TouchExisting(fs: Os.Fs, base: string, l: string)
    requires ValidBase(base) && CanonicalLoc(l) && l in fs.nodes && fs.nodes[l].DirNode?
    ensures TouchOn(fs, base, Dir(DirOf(l))) == Change(Pass, fs)
  {
    Os.ResolveCanonical(l);
  }

  /** Touching again after a successful touch changes nothing. */
  lemma TouchIdempotent(fs: Os.Fs, base: string, l: string)
    requires Os.WellFormed(fs) && ValidBase(base) && CanonicalLoc(l)
    requires TouchOn(fs, base, Dir(DirOf(l))).outcome.Pass?
    ensures var fs' := TouchOn(fs, base, Dir(DirOf(l))).fs;
      TouchOn(fs', base, Dir(DirOf(l))) == Change(Pass, fs')
  {
    TouchMakesDir(fs, base, l);
    TouchExisting(TouchOn(fs, base, Dir(DirOf(l))).fs, base, l);
  }

  // -------------------------------------------------------- listDirectory

  /** A handle listDirectory returns: a File for a path that is a file, a Dir
      for any other path. */
  datatype Entry = FileEntry(path: string) | DirEntry(dir: Dir)

  function EntryFor(fs: Os.Fs, base: string, p: string): Entry {
    if Os.IsFile(fs, p) then FileEntry(RealPath(Str(p), base)) else DirEntry(NewDir(Str(p), base))
  }

  /** The handles for the globbed paths, in glob order. */
  function Handled(fs: Os.Fs, base: string, g: seq<string>): (r: seq<Entry>)
    ensures |r| == |g| && forall i :: 0 <= i < |g| ==> r[i] == EntryFor(fs, base, g[i])
  {
    seq(|g|, i requires 0 <= i < |g| => EntryFor(fs, base, g[i]))
  }

  /** Dir::listDirectory on a filesystem. */
  function ListOn(fs: Os.Fs, base: string, d: Dir, pat: Os.Pattern): Result<seq<Entry>> {
    if AssertIsDir(fs, d).Fail? then Err(NotADirectory(d.path))
    else if !Os.IsReadable(fs, d.path) then Err(PathNotReadable(d.path))
    else
      var g := Os.Glob(fs, d.path, pat);
      Ok(Handled(fs, base, g))
  }

  /** Dir::listDirectory */
  method ListDirectory(host: Os.Host, d: Dir, pat: Os.Pattern) returns (r: Result<seq<Entry>>)
    ensures r == ListOn(host.fs, host.libDir, d, pat)
  {
    if AssertIsDir(host.fs, d).Fail? {
      return Err(NotADirectory(d.path));
    }
    if !Os.IsReadable(host.fs, d.path) {
      return Err(PathNotReadable(d.path));
    }
    var paths := Handles(host.fs, host.libDir, Os.Glob(host.fs, d.path, pat));
    return Ok(paths);
  }

  /** The foreach of listDirectory: a File or a Dir handle for each globbed
      path, by what is at the path on fs. */
  method Handles(fs: Os.Fs, base: string, g: seq<string>) returns (paths: seq<Entry>)
    ensures paths == Handled(fs, base, g)
  {
    ghost var h := Handled(fs, base, g);
    paths := [];
    for i := 0 to |g|
      invariant paths == h[..i]
    {
      var e := Handle(fs, base, g[i]);
      PrefixGrows(h, i, e);
      paths := paths + [e];
    }
    assert h[..|g|] == h;
  }

  /** The prefix of length i followed by element i is the prefix of length i + 1. */
  lemma PrefixGrows(h: seq<Entry>, i: nat, e: Entry)
    requires i < |h| && e == h[i]
    ensures h[..i] + [e] == h[..i + 1]
  {
    assert h[..i + 1] == h[..i] + [h[i]];
  }

  /** The handle listDirectory makes for one globbed path: a File for a
      regular file, a Dir for anything else. */
  method Handle(fs: Os.Fs, base: string, p: string) returns (e: Entry)
    ensures e == EntryFor(fs, base, p)
  {
    if Os.IsFile(fs, p) {
      e := FileEntry(RealPath(Str(p), base));
    } else {
      e := DirEntry(NewDir(Str(p), base));
    }
  }

  /** The handle for the node at a canonical location. */
  function EntryAt(fs: Os.Fs, k: string): Entry
    requires k in fs.nodes && CanonicalLoc(k)
  {
    if fs.nodes[k].FileNode? then FileEntry(k) else DirEntry(Dir(DirOf(k)))
  }

  /** The location an entry's handle points at. */
  function EntryLoc(e: Entry): string {
    match e
    case FileEntry(p) => p
    case DirEntry(d) => d.path[..|d.path| - 1]
  }

  /** The listing stated on the tree: the entries of the directory whose
      names the pattern accepts, in enumeration order. */
  ghost function Listing(fs: Os.Fs, l: string, pat: Os.Pattern): seq<Entry>
    requires Os.WellFormed(fs)
  {
    var es := Os.Entries(fs.order, l, pat);
    seq(|es|, i requires 0 <= i < |es| => EntryAt(fs, es[i]))
  }

  lemma EntryForCanonical(fs: Os.Fs, base: string, k: string)
    requires Os.WellFormed(fs) && k in fs.nodes && k != ""
    ensures EntryFor(fs, base, k) == EntryAt(fs, k)
  {
    assert CanonicalLoc(k);
    Os.ResolveCanonical(k);
    assert Os.Lookup(fs, k) == Some(fs.nodes[k]);
    RealPathCanonical(k, base);
    if fs.nodes[k].FileNode? {
      assert EntryFor(fs, base, k) == FileEntry(k);
    } else {
      assert EntryFor(fs, base, k) == DirEntry(Dir(DirOf(k)));
    }
  }

  /** A readable directory at a canonical location lists exactly the entries
      that the pattern accepts, in enumeration order, each as the File or
      Dir handle for that entry. */
  lemma ListOnTree(fs: Os.Fs, base: string, l: string, pat: Os.Pattern)
    requires Os.WellFormed(fs) && CanonicalLoc(l)
    requires l in fs.nodes && fs.nodes[l].DirNode? && fs.nodes[l].readable
    ensures ListOn(fs, base, Dir(DirOf(l)), pat) == Ok(Listing(fs, l, pat))
  {
    var d := Dir(DirOf(l));
    Os.ResolveCanonical(l);
    assert Os.Lookup(fs, d.path) == Some(fs.nodes[l]);
    var es := Os.Entries(fs.order, l, pat);
    var g := Os.Glob(fs, d.path, pat);
    assert |g| == |es|;
    forall i | 0 <= i < |g|
      ensures EntryFor(fs, base, g[i]) == EntryAt(fs, es[i])
    {
      var k := es[i];
      assert k in fs.order && k != "" && ParentLoc(k) == l;
      CanonicalParent(k);
      assert g[i] == k;
      EntryForCanonical(fs, base, k);
    }
    assert AssertIsDir(fs, d) == Pass;
    assert Os.IsReadable(fs, d.path);
    var listed := Handled(fs, base, g);
    assert ListOn(fs, base, d, pat) == Ok(listed);
    assert listed == Listing(fs, l, pat);
  }

  /** A successful listing comes from a readable directory, listed on the tree. */
  lemma ListOnSucceeds(fs: Os.Fs, base: string, d: Dir, pat: Os.Pattern)
    requires Os.WellFormed(fs) && ListOn(fs, base, d, pat).Ok?
    ensures Os.Resolve(d.path).Some?
    ensures var l := Os.Resolve(d.path).value;
      && d.path == DirOf(l) && l in fs.nodes && fs.nodes[l].DirNode? && fs.nodes[l].readable
      && ListOn(fs, base, d, pat) == Ok(Listing(fs, l, pat))
  {
    Os.ResolveDirPath(d.path);
    ListOnTree(fs, base, Os.Resolve(d.path).value, pat);
  }

  // -------------------------------------------------------- findRecursive

  /** The number of nodes inside the directory a path resolves to: the
      measure of findRecursive's descent. */
  ghost function Size(fs: Os.Fs, q: string): nat {
    match Os.Resolve(q)
    case None => 0
    case Some(l) => |Os.Below(fs.nodes, l)|
  }

  lemma EntryAtLoc(fs: Os.Fs, k: string)
    requires k in fs.nodes && CanonicalLoc(k)
    ensures EntryLoc(EntryAt(fs, k)) == k
  {
  }

  /** The directory entries of a listing lie one level inside l, and the
      subtrees below them are smaller than the one below l. */
  lemma ChildrenSmaller(fs: Os.Fs, l: string, pat: Os.Pattern)
    requires Os.WellFormed(fs)
    ensures forall c :: c in Listing(fs, l, pat) && c.DirEntry? ==>
      && Os.Resolve(c.dir.path) == Some(EntryLoc(c)) && ParentLoc(EntryLoc(c)) == l
      && EntryLoc(c) != "" && Size(fs, c.dir.path) < |Os.Below(fs.nodes, l)|
  {
    var es := Os.Entries(fs.order, l, pat);
    forall c | c in Listing(fs, l, pat) && c.DirEntry?
      ensures && Os.Resolve(c.dir.path) == Some(EntryLoc(c)) && ParentLoc(EntryLoc(c)) == l
        && EntryLoc(c) != "" && Size(fs, c.dir.path) < |Os.Below(fs.nodes, l)|
    {
      var i :| 0 <= i < |es| && c == EntryAt(fs, es[i]);
      EntrySmaller(fs, l, es[i]);
    }
  }

  lemma EntrySmaller(fs: Os.Fs, l: string, k: string)
    requires Os.WellFormed(fs) && k in fs.nodes && k != "" && ParentLoc(k) == l
    ensures EntryLoc(EntryAt(fs, k)) == k
    ensures EntryAt(fs, k).DirEntry? ==>
      Os.Resolve(EntryAt(fs, k).dir.path) == Some(k) && Size(fs, EntryAt(fs, k).dir.path) < |Os.Below(fs.nodes, l)|
  {
    assert CanonicalLoc(k);
    EntryAtLoc(fs, k);
    if fs.nodes[k].DirNode? {
      Os.ResolveCanonical(k);
      assert EntryAt(fs, k).dir.path == DirOf(k);
      Os.BelowEntrySmaller(fs.nodes, k);
    }
  }

  /** Dir::findRecursive on a filesystem: the matches of this directory,
      then, for each subdirectory in enumeration order, its own findings. */
  ghost function FindSpec(fs: Os.Fs, base: string, d: Dir, pat: Os.Pattern): Result<seq<Entry>>
    requires Os.WellFormed(fs)
    decreases Size(fs, d.path), 1
  {
    match ListOn(fs, base, d, pat)
    case Err(e) => Err(e)
    case Ok(paths) =>
      match ListOn(fs, base, d, Os.Star)
      case Err(e) => Err(e)
      case Ok(children) =>
        ListOnSucceeds(fs, base, d, Os.Star);
        ChildrenSmaller(fs, Os.Resolve(d.path).value, Os.Star);
        FindInChildren(fs, base, children, pat, paths, Size(fs, d.path))
  }

  /** The loop of findRecursive over the children still to visit, with the
      findings gathered so far. */
  ghost function FindInChildren(fs: Os.Fs, base: string, children: seq<Entry>, pat: Os.Pattern,
                                acc: seq<Entry>, bound: nat): Result<seq<Entry>>
    requires Os.WellFormed(fs)
    requires forall c :: c in children && c.DirEntry? ==> Size(fs, c.dir.path) < bound
    decreases bound, 0, |children|
  {
    if children == [] then Ok(acc)
    else if children[0].DirEntry? then
      match FindSpec(fs, base, children[0].dir, pat)
      case Err(e) => Err(e)
      case Ok(found) => FindInChildren(fs, base, children[1..], pat, acc + found, bound)
    else FindInChildren(fs, base, children[1..], pat, acc, bound)
  }

  /** One level of findRecursive: once both listings succeed, what is left
      is the walk over the children, each smaller than the directory. */
  lemma FindStep(fs: Os.Fs, base: string, d: Dir, pat: Os.Pattern)
    requires Os.WellFormed(fs)
    requires ListOn(fs, base, d, pat).Ok? && ListOn(fs, base, d, Os.Star).Ok?
    ensures var cs := ListOn(fs, base, d, Os.Star).value;
      && (forall c :: c in cs && c.DirEntry? ==> Size(fs, c.dir.path) < Size(fs, d.path))
      && FindSpec(fs, base, d, pat) == FindInChildren(fs, base, cs, pat, ListOn(fs, base, d, pat).value, Size(fs, d.path))
  {
    ListOnSucceeds(fs, base, d, Os.Star);
    ChildrenSmaller(fs, Os.Resolve(d.path).value, Os.Star);
  }

  /** Dir::findRecursive */
  method FindRecursive(host: Os.Host, d: Dir, pat: Os.Pattern) returns (r: Result<seq<Entry>>)
    requires host.Valid()
    ensures r == FindSpec(host.fs, host.libDir, d, pat)
    decreases Size(host.fs, d.path), 1
  {
    var paths := ListDirectory(host, d, pat);
    if paths.Err? {
      return Err(paths.error);
    }
    var children := ListDirectory(host, d, Os.Star);
    if children.Err? {
      return Err(children.error);
    }
    FindStep(host.fs, host.libDir, d, pat);
    r := FindInSubdirectories(host, children.value, pat, paths.value, Size(host.fs, d.path));
  }

  /** The loop of Dir::findRecursive over the children of a directory. */
  method FindInSubdirectories(host: Os.Host, cs: seq<Entry>, pat: Os.Pattern, paths: seq<Entry>, ghost bound: nat)
    returns (r: Result<seq<Entry>>)
    requires host.Valid()
    requires forall c :: c in cs && c.DirEntry? ==> Size(host.fs, c.dir.path) < bound
    ensures r == FindInChildren(host.fs, host.libDir, cs, pat, paths, bound)
    decreases bound, 0
  {
    ghost var fs, base := host.fs, host.libDir;
    var acc := paths;
    assert cs[0..] == cs;
    var i := 0;
    while i < |cs|
      invariant 0 <= i <= |cs|
      invariant FindInChildren(fs, base, cs, pat, paths, bound) == FindInChildren(fs, base, cs[i..], pat, acc, bound)
    {
      assert cs[i..][1..] == cs[i + 1..];
      if cs[i].DirEntry? {
        var sub := FindRecursive(host, cs[i].dir, pat);
        if sub.Err? {
          return Err(sub.error);
        }
        acc := acc + sub.value;
      }
      i := i + 1;
    }
    return Ok(acc);
  }

  /** e is the handle of a node inside the directory at l whose name the
      pattern accepts. */
  ghost predicate Found(fs: Os.Fs, l: string, pat: Os.Pattern, e: Entry) {
    var k := EntryLoc(e);
    && k in Os.Below(fs.nodes, l) && CanonicalLoc(k) && Os.Matches(pat, NameOf(k))
    && e == EntryAt(fs, k)
  }

  lemma ListingFound(fs: Os.Fs, l: string, pat: Os.Pattern)
    requires Os.WellFormed(fs)
    ensures forall e :: e in Listing(fs, l, pat) ==> Found(fs, l, pat, e)
  {
    var es := Os.Entries(fs.order, l, pat);
    forall e | e in Listing(fs, l, pat)
      ensures Found(fs, l, pat, e)
    {
      var i :| 0 <= i < |es| && e == EntryAt(fs, es[i]);
      ListedFound(fs, l, pat, es[i]);
    }
  }

  lemma ListedFound(fs: Os.Fs, l: string, pat: Os.Pattern, k: string)
    requires Os.WellFormed(fs) && k in Os.Entries(fs.order, l, pat)
    ensures Found(fs, l, pat, EntryAt(fs, k))
  {
    assert k in fs.order && k != "" && ParentLoc(k) == l;
    EntryAtLoc(fs, k);
    Os.EntryInside(k);
  }

  /** A finding inside a subdirectory is a finding of its parent. */
  lemma FoundWidens(fs: Os.Fs, k: string, l: string, pat: Os.Pattern, e: Entry)
    requires Os.Inside(k, l) && Found(fs, k, pat, e)
    ensures Found(fs, l, pat, e)
  {
    Os.InsideTransitive(EntryLoc(e), k, l);
  }

  /** Everything findRecursive returns is the handle of a node strictly
      inside the directory whose name the pattern accepts. */
  lemma {:induction false} FindSound(fs: Os.Fs, base: string, d: Dir, pat: Os.Pattern)
    requires Os.WellFormed(fs) && FindSpec(fs, base, d, pat).Ok?
    ensures Os.Resolve(d.path).Some?
    ensures forall e :: e in FindSpec(fs, base, d, pat).value ==> Found(fs, Os.Resolve(d.path).value, pat, e)
    decreases Size(fs, d.path), 1
  {
    ListOnSucceeds(fs, base, d, pat);
    ListOnSucceeds(fs, base, d, Os.Star);
    var l := Os.Resolve(d.path).value;
    ChildrenSmaller(fs, l, Os.Star);
    ListingFound(fs, l, pat);
    var children := Listing(fs, l, Os.Star);
    FindInChildrenSound(fs, base, children, pat, Listing(fs, l, pat), Size(fs, d.path), l);
  }

  lemma {:induction false} FindInChildrenSound(fs: Os.Fs, base: string, children: seq<Entry>, pat: Os.Pattern,
                                               acc: seq<Entry>, bound: nat, l: string)
    requires Os.WellFormed(fs)
    requires forall c :: c in children && c.DirEntry? ==> Size(fs, c.dir.path) < bound
    requires forall c :: c in children && c.DirEntry? ==>
      Os.Resolve(c.dir.path) == Some(EntryLoc(c)) && ParentLoc(EntryLoc(c)) == l && EntryLoc(c) != ""
    requires forall e :: e in acc ==> Found(fs, l, pat, e)
    requires FindInChildren(fs, base, children, pat, acc, bound).Ok?
    ensures forall e :: e in FindInChildren(fs, base, children, pat, acc, bound).value ==> Found(fs, l, pat, e)
    decreases bound, 0, |children|
  {
    if children == [] {
    } else if children[0].DirEntry? {
      var c := children[0];
      var k := EntryLoc(c);
      FindSound(fs, base, c.dir, pat);
      var found := FindSpec(fs, base, c.dir, pat).value;
      Os.EntryInside(k);
      forall e | e in found
        ensures Found(fs, l, pat, e)
      {
        FoundWidens(fs, k, l, pat, e);
      }
      FindInChildrenSound(fs, base, children[1..], pat, acc + found, bound, l);
    } else {
      FindInChildrenSound(fs, base, children[1..], pat, acc, bound, l);
    }
  }

  /** An entry of the directory at l whose name the pattern accepts is listed. */
  lemma InListing(fs: Os.Fs, l: string, pat: Os.Pattern, k: string)
    requires Os.WellFormed(fs) && k in fs.nodes && k != "" && ParentLoc(k) == l && Os.Matches(pat, NameOf(k))
    ensures CanonicalLoc(k) && EntryAt(fs, k) in Listing(fs, l, pat)
  {
    var es := Os.Entries(fs.order, l, pat);
    assert k in es;
    var i :| 0 <= i < |es| && es[i] == k;
    assert Listing(fs, l, pat)[i] == EntryAt(fs, k);
  }

  /** The walk over the children keeps what was gathered before it. */
  lemma {:induction false} FindInChildrenKeeps(fs: Os.Fs, base: string, children: seq<Entry>, pat: Os.Pattern,
                                               acc: seq<Entry>, bound: nat)
    requires Os.WellFormed(fs)
    requires forall c :: c in children && c.DirEntry? ==> Size(fs, c.dir.path) < bound
    requires FindInChildren(fs, base, children, pat, acc, bound).Ok?
    ensures forall e :: e in acc ==> e in FindInChildren(fs, base, children, pat, acc, bound).value
    decreases |children|
  {
    if children != [] {
      if children[0].DirEntry? {
        var found := FindSpec(fs, base, children[0].dir, pat).value;
        FindInChildrenKeeps(fs, base, children[1..], pat, acc + found, bound);
      } else {
        FindInChildrenKeeps(fs, base, children[1..], pat, acc, bound);
      }
    }
  }

  /** The walk over the children visits each subdirectory: its own search
      succeeds and everything it finds is in the result. */
  lemma {:induction false} FindInChildrenVisits(fs: Os.Fs, base: string, children: seq<Entry>, pat: Os.Pattern,
                                                acc: seq<Entry>, bound: nat, c: Entry)
    requires Os.WellFormed(fs)
    requires forall c :: c in children && c.DirEntry? ==> Size(fs, c.dir.path) < bound
    requires FindInChildren(fs, base, children, pat, acc, bound).Ok?
    requires c in children && c.DirEntry?
    ensures FindSpec(fs, base, c.dir, pat).Ok?
    ensures forall e :: e in FindSpec(fs, base, c.dir, pat).value ==> e in FindInChildren(fs, base, children, pat, acc, bound).value
    decreases |children|
  {
    var rest := children[1..];
    if children[0].DirEntry? {
      var found := FindSpec(fs, base, children[0].dir, pat).value;
      if children[0] == c {
        FindInChildrenKeeps(fs, base, rest, pat, acc + found, bound);
      } else {
        FindInChildrenVisits(fs, base, rest, pat, acc + found, bound, c);
      }
    } else {
      FindInChildrenVisits(fs, base, rest, pat, acc, bound, c);
    }
  }

  /** findRecursive misses nothing: when it succeeds, the handle of every node
      strictly inside the directory whose name the pattern accepts is among
      its findings. */
  lemma {:induction false} FindComplete(fs: Os.Fs, base: string, d: Dir, pat: Os.Pattern)
    requires Os.WellFormed(fs) && FindSpec(fs, base, d, pat).Ok?
    ensures Os.Resolve(d.path).Some?
    ensures forall k :: k in Os.Below(fs.nodes, Os.Resolve(d.path).value) && Os.Matches(pat, NameOf(k)) ==>
      CanonicalLoc(k) && EntryAt(fs, k) in FindSpec(fs, base, d, pat).value
    decreases Size(fs, d.path), 2
  {
    ListOnSucceeds(fs, base, d, pat);
    var l := Os.Resolve(d.path).value;
    forall k | k in Os.Below(fs.nodes, l) && Os.Matches(pat, NameOf(k))
      ensures CanonicalLoc(k) && EntryAt(fs, k) in FindSpec(fs, base, d, pat).value
    {
      FindsNode(fs, base, d, pat, k);
    }
  }

  /** One node below the directory is found: directly when it is an entry of
      the directory, otherwise through the subdirectory it lies in. */
  lemma FindsNode(fs: Os.Fs, base: string, d: Dir, pat: Os.Pattern, k: string)
    requires Os.WellFormed(fs) && FindSpec(fs, base, d, pat).Ok? && Os.Resolve(d.path).Some?
    requires k in Os.Below(fs.nodes, Os.Resolve(d.path).value) && Os.Matches(pat, NameOf(k))
    ensures CanonicalLoc(k) && EntryAt(fs, k) in FindSpec(fs, base, d, pat).value
    decreases Size(fs, d.path), 1
  {
    var l := Os.Resolve(d.path).value;
    var c := Os.EntryAbove(fs, k, l);
    if c == k {
      FindsEntry(fs, base, d, pat, k);
    } else {
      FindsInside(fs, base, d, pat, k, c);
    }
  }

  /** A matching entry of the directory is among the findings. */
  lemma FindsEntry(fs: Os.Fs, base: string, d: Dir, pat: Os.Pattern, k: string)
    requires Os.WellFormed(fs) && FindSpec(fs, base, d, pat).Ok? && Os.Resolve(d.path).Some?
    requires k in fs.nodes && k != "" && ParentLoc(k) == Os.Resolve(d.path).value && Os.Matches(pat, NameOf(k))
    ensures CanonicalLoc(k) && EntryAt(fs, k) in FindSpec(fs, base, d, pat).value
  {
    ListOnSucceeds(fs, base, d, pat);
    ListOnSucceeds(fs, base, d, Os.Star);
    FindStep(fs, base, d, pat);
    var l := Os.Resolve(d.path).value;
    InListing(fs, l, pat, k);
    FindInChildrenKeeps(fs, base, Listing(fs, l, Os.Star), pat, Listing(fs, l, pat), Size(fs, d.path));
  }

  /** A matching node inside the subdirectory c of the directory is among the
      findings, because the search of c finds it. */
  lemma {:induction false} FindsInside(fs: Os.Fs, base: string, d: Dir, pat: Os.Pattern, k: string, c: string)
    requires Os.WellFormed(fs) && FindSpec(fs, base, d, pat).Ok? && Os.Resolve(d.path).Some?
    requires k in fs.nodes && Os.Matches(pat, NameOf(k)) && Os.Inside(k, c)
    requires c in fs.nodes && c != "" && ParentLoc(c) == Os.Resolve(d.path).value
    ensures CanonicalLoc(k) && EntryAt(fs, k) in FindSpec(fs, base, d, pat).value
    decreases Size(fs, d.path), 0
  {
    ListOnSucceeds(fs, base, d, pat);
    ListOnSucceeds(fs, base, d, Os.Star);
    FindStep(fs, base, d, pat);
    var l := Os.Resolve(d.path).value;
    Os.AncestorPresent(fs, k, c);
    InListing(fs, l, Os.Star, c);
    var e := EntryAt(fs, c);
    assert e == DirEntry(Dir(DirOf(c)));
    FindInChildrenVisits(fs, base, Listing(fs, l, Os.Star), pat, Listing(fs, l, pat), Size(fs, d.path), e);
    EntrySmaller(fs, l, c);
    FindComplete(fs, base, e.dir, pat);
    assert k in Os.Below(fs.nodes, c);
  }

  /** No two handles in s point at the same location. */
  ghost predicate OncePerNode(s: seq<Entry>) {
    forall i, j :: 0 <= i < j < |s| ==> EntryLoc(s[i]) != EntryLoc(s[j])
  }

  lemma ConcatOnce(a: seq<Entry>, b: seq<Entry>)
    requires OncePerNode(a) && OncePerNode(b)
    requires forall x, y :: x in a && y in b ==> EntryLoc(x) != EntryLoc(y)
    ensures OncePerNode(a + b)
  {
    forall i, j | 0 <= i < j < |a + b|
      ensures EntryLoc((a + b)[i]) != EntryLoc((a + b)[j])
    {
      if j >= |a| && i < |a| {
        assert (a + b)[i] in a && (a + b)[j] in b;
      } else if i >= |a| {
        assert (a + b)[i] == b[i - |a|] && (a + b)[j] == b[j - |a|];
      }
    }
  }

  /** A listing holds each entry once, and each of them lies one level inside l. */
  lemma ListingOnce(fs: Os.Fs, l: string, pat: Os.Pattern)
    requires Os.WellFormed(fs)
    ensures OncePerNode(Listing(fs, l, pat))
    ensures forall e :: e in Listing(fs, l, pat) ==> EntryLoc(e) != "" && ParentLoc(EntryLoc(e)) == l
  {
    var es := Os.Entries(fs.order, l, pat);
    var ls := Listing(fs, l, pat);
    forall i | 0 <= i < |es|
      ensures EntryLoc(ls[i]) == es[i]
    {
      assert es[i] in fs.order;
    }
    forall e | e in ls
      ensures EntryLoc(e) != "" && ParentLoc(EntryLoc(e)) == l
    {
      var i :| 0 <= i < |ls| && ls[i] == e;
      assert es[i] in es;
    }
  }

  /** findRecursive returns each node at most once: the directory's own
      matches are its entries, and what a subdirectory finds lies inside
      that subdirectory and no other. */
  lemma {:induction false} FindOnce(fs: Os.Fs, base: string, d: Dir, pat: Os.Pattern)
    requires Os.WellFormed(fs) && FindSpec(fs, base, d, pat).Ok?
    ensures OncePerNode(FindSpec(fs, base, d, pat).value)
    decreases Size(fs, d.path), 1
  {
    ListOnSucceeds(fs, base, d, pat);
    ListOnSucceeds(fs, base, d, Os.Star);
    FindStep(fs, base, d, pat);
    var l := Os.Resolve(d.path).value;
    ChildrenSmaller(fs, l, Os.Star);
    ListingOnce(fs, l, pat);
    ListingOnce(fs, l, Os.Star);
    var children := Listing(fs, l, Os.Star);
    var paths := Listing(fs, l, pat);
    forall e, c | e in paths && c in children && c.DirEntry?
      ensures !Os.Inside(EntryLoc(e), EntryLoc(c))
    {
      Os.SiblingNotInside(EntryLoc(e), EntryLoc(c));
    }
    FindInChildrenOnce(fs, base, children, pat, paths, Size(fs, d.path), l);
  }

  lemma {:induction false} FindInChildrenOnce(fs: Os.Fs, base: string, children: seq<Entry>, pat: Os.Pattern,
                                              acc: seq<Entry>, bound: nat, l: string)
    requires Os.WellFormed(fs)
    requires forall c :: c in children && c.DirEntry? ==> Size(fs, c.dir.path) < bound
    requires forall c :: c in children && c.DirEntry? ==>
      Os.Resolve(c.dir.path) == Some(EntryLoc(c)) && ParentLoc(EntryLoc(c)) == l && EntryLoc(c) != ""
    requires OncePerNode(children) && OncePerNode(acc)
    requires forall e, c :: e in acc && c in children && c.DirEntry? ==> !Os.Inside(EntryLoc(e), EntryLoc(c))
    requires FindInChildren(fs, base, children, pat, acc, bound).Ok?
    ensures OncePerNode(FindInChildren(fs, base, children, pat, acc, bound).value)
    decreases bound, 0, |children|, 1
  {
    if children == [] {
    } else {
      var rest := children[1..];
      TailOnce(children);
      if children[0].DirEntry? {
        var found := FindSpec(fs, base, children[0].dir, pat).value;
        SubdirOnce(fs, base, children, pat, acc, bound, l);
        FindInChildrenOnce(fs, base, rest, pat, acc + found, bound, l);
      } else {
        FindInChildrenOnce(fs, base, rest, pat, acc, bound, l);
      }
    }
  }

  lemma TailOnce(children: seq<Entry>)
    requires children != [] && OncePerNode(children)
    ensures OncePerNode(children[1..])
  {
    var rest := children[1..];
    forall i, j | 0 <= i < j < |rest|
      ensures EntryLoc(rest[i]) != EntryLoc(rest[j])
    {
      assert rest[i] == children[i + 1] && rest[j] == children[j + 1];
    }
  }

  /** Appending what the first subdirectory finds keeps the findings once per
      node and apart from the remaining subdirectories. */
  lemma {:induction false} SubdirOnce(fs: Os.Fs, base: string, children: seq<Entry>, pat: Os.Pattern,
                                      acc: seq<Entry>, bound: nat, l: string)
    requires Os.WellFormed(fs) && children != [] && children[0].DirEntry?
    requires Size(fs, children[0].dir.path) < bound
    requires forall c :: c in children && c.DirEntry? ==>
      Os.Resolve(c.dir.path) == Some(EntryLoc(c)) && ParentLoc(EntryLoc(c)) == l && EntryLoc(c) != ""
    requires OncePerNode(children) && OncePerNode(acc)
    requires forall e, c :: e in acc && c in children && c.DirEntry? ==> !Os.Inside(EntryLoc(e), EntryLoc(c))
    requires FindSpec(fs, base, children[0].dir, pat).Ok?
    ensures var found := FindSpec(fs, base, children[0].dir, pat).value;
      && OncePerNode(acc + found)
      && forall e, c :: e in acc + found && c in children[1..] && c.DirEntry? ==> !Os.Inside(EntryLoc(e), EntryLoc(c))
    decreases bound, 0, |children|, 0
  {
    var c0 := children[0];
    var k0 := EntryLoc(c0);
    var rest := children[1..];
    FindSound(fs, base, c0.dir, pat);
    FindOnce(fs, base, c0.dir, pat);
    var found := FindSpec(fs, base, c0.dir, pat).value;
    assert forall e :: e in found ==> Os.Inside(EntryLoc(e), k0);
    forall c | c in rest
      ensures EntryLoc(c) != k0
    {
      var j :| 0 <= j < |rest| && rest[j] == c;
      assert children[j + 1] == c;
    }
    ConcatOnce(acc, found);
    FindingsApart(found, k0, rest, l);
  }

  /** What a subdirectory k0 finds lies inside no other subdirectory of l. */
  lemma FindingsApart(found: seq<Entry>, k0: string, rest: seq<Entry>, l: string)
    requires k0 != "" && ParentLoc(k0) == l
    requires forall e :: e in found ==> Os.Inside(EntryLoc(e), k0)
    requires forall c :: c in rest && c.DirEntry? ==> ParentLoc(EntryLoc(c)) == l && EntryLoc(c) != "" && EntryLoc(c) != k0
    ensures forall e, c :: e in found && c in rest && c.DirEntry? ==> !Os.Inside(EntryLoc(e), EntryLoc(c))
  {
    forall e, c | e in found && c in rest && c.DirEntry?
      ensures !Os.Inside(EntryLoc(e), EntryLoc(c))
    {
      if Os.Inside(EntryLoc(e), EntryLoc(c)) {
        Os.OneSiblingAbove(EntryLoc(e), k0, EntryLoc(c));
      }
    }
  }
}
