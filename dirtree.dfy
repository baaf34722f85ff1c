/** Dir::delete, Dir::clear and Dir::write: the directory operations that
    work through File handles as well as Dir handles. Deleting only ever
    removes nodes, so each operation is first stated as a function of the
    filesystem whose result is a part of the filesystem it started from;
    the methods do the work on the host and are proved to meet them. */
module DirTree {
  import opened Text
  import opened Errors
  import opened Paths
  import Os
  import Dirs
  import Files

  // ------------------------------------------------------------ measures

  /** fs' is well formed and every node it has is a node of fs, unchanged:
      what is left after deleting. */
  ghost predicate Shrunk(fs: Os.Fs, fs': Os.Fs) {
    && Os.WellFormed(fs')
    && forall k :: k in fs'.nodes ==> k in fs.nodes && fs'.nodes[k] == fs.nodes[k]
  }

  /** Deleting can only make the subtree below any path smaller. */
  lemma SizeShrinks(fs: Os.Fs, fs': Os.Fs, q: string)
    requires Shrunk(fs, fs')
    ensures Dirs.Size(fs', q) <= Dirs.Size(fs, q)
  {
    if Os.Resolve(q).Some? {
      var l := Os.Resolve(q).value;
      assert Os.Below(fs'.nodes, l) <= Os.Below(fs.nodes, l);
      SubsetSmaller(Os.Below(fs'.nodes, l), Os.Below(fs.nodes, l));
    }
  }

  lemma SubsetSmaller(a: set<string>, b: set<string>)
    requires a <= b
    ensures |a| <= |b|
  {
    assert b == a + (b - a) && a * (b - a) == {};
  }

  /** The bound on the subdirectory entries of a list still holds once the
      filesystem has shrunk. */
  lemma SizesShrink(fs: Os.Fs, fs': Os.Fs, cs: seq<Dirs.Entry>, bound: nat)
    requires Shrunk(fs, fs')
    requires forall c :: c in cs && c.DirEntry? ==> Dirs.Size(fs, c.dir.path) < bound
    ensures forall c :: c in cs && c.DirEntry? ==> Dirs.Size(fs', c.dir.path) < bound
  {
    forall c | c in cs && c.DirEntry?
      ensures Dirs.Size(fs', c.dir.path) < bound
    {
      SizeShrinks(fs, fs', c.dir.path);
    }
  }

  /** File::delete and rmdir only remove nodes. */
  lemma FileDeleteShrinks(fs: Os.Fs, base: string, p: string)
    requires Os.WellFormed(fs) && ValidBase(base)
    ensures Shrunk(fs, Files.DeleteOn(fs, base, p).fs)
  {
    Os.UnlinkKeepsWellFormed(fs, p);
  }

  lemma RmdirShrinks(fs: Os.Fs, p: string)
    requires Os.WellFormed(fs)
    ensures Shrunk(fs, Os.Rmdir(fs, p).fs)
  {
    Os.RmdirKeepsWellFormed(fs, p);
  }

  // ------------------------------------------------- names and exclusions

  /** getName of a listed handle: the basename pathinfo gives for its path. */
  function EntryName(e: Dirs.Entry): string {
    match e
    case FileEntry(p) => PathInfo(p).basename
    case DirEntry(d) => PathInfo(d.path).basename
  }

  /** One of the exclude patterns (regular expressions, given as the names
      they match) accepts the name. */
  ghost predicate Excluded(exclude: seq<string -> bool>, name: string) {
    exists i :: 0 <= i < |exclude| && exclude[i](name)
  }

  // ------------------------------------------------ the functions of fs

  /** Dir::delete on a filesystem: NotADirectory when no directory is there,
      PathNotWritable when it is read-only, otherwise clear it and rmdir it.
      The result of rmdir is not looked at. */
  ghost function DeleteOn(fs: Os.Fs, base: string, d: Dirs.Dir): (r: Dirs.Change)
    requires Os.WellFormed(fs) && ValidBase(base)
    ensures Shrunk(fs, r.fs)
    decreases Dirs.Size(fs, d.path), 4
  {
    match Dirs.Exists(fs, d)
    case Err(e) => Dirs.Change(Fail(e), fs)
    case Ok(present) =>
      if !present then Dirs.Change(Fail(NotADirectory(d.path)), fs)
      else
        match Dirs.WalkWritable(fs, base, d.path)
        case Err(e) => Dirs.Change(Fail(e), fs)
        case Ok(writable) =>
          if !writable then Dirs.Change(Fail(PathNotWritable(d.path)), fs)
          else
            var c := ClearOn(fs, base, d, []);
            if c.outcome.Fail? then c
            else
              RmdirShrinks(c.fs, d.path);
              Dirs.Change(Pass, Os.Rmdir(c.fs, d.path).fs)
  }

  /** Clearing a directory on a filesystem: list it, then delete each entry
      in listing order whose name no exclude pattern accepts, stopping at
      the first failure. Dir::clear as written runs this with no patterns,
      whatever it is given. */
  ghost function ClearOn(fs: Os.Fs, base: string, d: Dirs.Dir, exclude: seq<string -> bool>): (r: Dirs.Change)
    requires Os.WellFormed(fs) && ValidBase(base)
    ensures Shrunk(fs, r.fs)
    decreases Dirs.Size(fs, d.path), 3
  {
    match Dirs.ListOn(fs, base, d, Os.Star)
    case Err(e) => Dirs.Change(Fail(e), fs)
    case Ok(paths) =>
      Dirs.ListOnSucceeds(fs, base, d, Os.Star);
      Dirs.ChildrenSmaller(fs, Os.Resolve(d.path).value, Os.Star);
      DeleteEach(fs, base, paths, exclude, Dirs.Size(fs, d.path))
  }

  /** The loop of clear over the listed entries still to visit. */
  ghost function DeleteEach(fs: Os.Fs, base: string, cs: seq<Dirs.Entry>, exclude: seq<string -> bool>,
                            bound: nat): (r: Dirs.Change)
    requires Os.WellFormed(fs) && ValidBase(base)
    requires forall c :: c in cs && c.DirEntry? ==> Dirs.Size(fs, c.dir.path) < bound
    ensures Shrunk(fs, r.fs)
    decreases bound, 2, |cs|
  {
    if cs == [] then Dirs.Change(Pass, fs)
    else if Excluded(exclude, EntryName(cs[0])) then DeleteEach(fs, base, cs[1..], exclude, bound)
    else
      var c := DeleteEntryOn(fs, base, cs[0], bound);
      if c.outcome.Fail? then c
      else
        SizesShrink(fs, c.fs, cs[1..], bound);
        DeleteEach(c.fs, base, cs[1..], exclude, bound)
  }

  /** $path->delete() on one listed entry: File::delete for a file, Dir::delete for a directory. */
  ghost function DeleteEntryOn(fs: Os.Fs, base: string, e: Dirs.Entry, bound: nat): (r: Dirs.Change)
    requires Os.WellFormed(fs) && ValidBase(base)
    requires e.DirEntry? ==> Dirs.Size(fs, e.dir.path) < bound
    ensures Shrunk(fs, r.fs)
    decreases bound, 1
  {
    match e
    case FileEntry(p) =>
      FileDeleteShrinks(fs, base, p);
      Files.DeleteOn(fs, base, p)
    case DirEntry(sub) => DeleteOn(fs, base, sub)
  }

  // ------------------------------------------------------------ the methods

  /** Dir::delete */
  method Delete(host: Os.Host, d: Dirs.Dir) returns (r: Outcome)
    requires host.Valid()
    modifies host
    ensures host.Valid()
    ensures Dirs.Change(r, host.fs) == DeleteOn(old(host.fs), host.libDir, d)
    decreases Dirs.Size(host.fs, d.path), 4
  {
    var e := Dirs.Exists(host.fs, d);
    if e.Err? {
      return Fail(e.error);
    }
    if !e.value {
      return Fail(NotADirectory(d.path));
    }
    var w := Dirs.IsWritable(host, d);
    if w.Err? {
      return Fail(w.error);
    }
    if !w.value {
      return Fail(PathNotWritable(d.path));
    }
    r := Clear(host, d, []);
    if r.Fail? {
      return;
    }
    RmdirShrinks(host.fs, d.path);
    host.fs := Os.Rmdir(host.fs, d.path).fs;
  }

  /** Dir::clear as written: the loop over the exclude patterns leaves with
      break on a match, but the entry is deleted after it all the same. */
  method Clear(host: Os.Host, d: Dirs.Dir, exclude: seq<string -> bool>) returns (r: Outcome)
    requires host.Valid()
    modifies host
    ensures host.Valid()
    ensures Dirs.Change(r, host.fs) == ClearOn(old(host.fs), host.libDir, d, [])
    decreases Dirs.Size(host.fs, d.path), 3
  {
    var paths := Dirs.ListDirectory(host, d, Os.Star);
    if paths.Err? {
      return Fail(paths.error);
    }
    Dirs.ListOnSucceeds(host.fs, host.libDir, d, Os.Star);
    Dirs.ChildrenSmaller(host.fs, Os.Resolve(d.path).value, Os.Star);
    r := DeleteListed(host, paths.value, exclude, Dirs.Size(host.fs, d.path));
  }

  /** The foreach of Dir::clear as written. */
  method DeleteListed(host: Os.Host, cs: seq<Dirs.Entry>, exclude: seq<string -> bool>, ghost bound: nat)
    returns (r: Outcome)
    requires host.Valid()
    requires forall c :: c in cs && c.DirEntry? ==> Dirs.Size(host.fs, c.dir.path) < bound
    modifies host
    ensures host.Valid()
    ensures Dirs.Change(r, host.fs) == DeleteEach(old(host.fs), host.libDir, cs, [], bound)
    decreases bound, 2
  {
    ghost var fs0 := host.fs;
    assert cs[0..] == cs;
    var i := 0;
    while i < |cs|
      invariant 0 <= i <= |cs| && host.Valid()
      invariant forall c :: c in cs[i..] && c.DirEntry? ==> Dirs.Size(host.fs, c.dir.path) < bound
      invariant DeleteEach(fs0, host.libDir, cs, [], bound) == DeleteEach(host.fs, host.libDir, cs[i..], [], bound)
    {
      assert cs[i..][1..] == cs[i + 1..];
      var name := EntryName(cs[i]);
      var j := 0;
      while j < |exclude|
        invariant 0 <= j <= |exclude|
      {
        if exclude[j](name) {
          break;
        }
        j := j + 1;
      }
      ghost var before := host.fs;
      r := DeleteEntry(host, cs[i], bound);
      if r.Fail? {
        return;
      }
      SizesShrink(before, host.fs, cs[i + 1..], bound);
      i := i + 1;
    }
    return Pass;
  }

  /** Dir::clear with the exclude patterns honoured: an entry whose name a
      pattern accepts is skipped. */
  method ClearExcept(host: Os.Host, d: Dirs.Dir, exclude: seq<string -> bool>) returns (r: Outcome)
    requires host.Valid()
    modifies host
    ensures host.Valid()
    ensures Dirs.Change(r, host.fs) == ClearOn(old(host.fs), host.libDir, d, exclude)
    decreases Dirs.Size(host.fs, d.path), 3
  {
    var paths := Dirs.ListDirectory(host, d, Os.Star);
    if paths.Err? {
      return Fail(paths.error);
    }
    Dirs.ListOnSucceeds(host.fs, host.libDir, d, Os.Star);
    Dirs.ChildrenSmaller(host.fs, Os.Resolve(d.path).value, Os.Star);
    r := DeleteUnexcluded(host, paths.value, exclude, Dirs.Size(host.fs, d.path));
  }

  /** The foreach of ClearExcept. */
  method DeleteUnexcluded(host: Os.Host, cs: seq<Dirs.Entry>, exclude: seq<string -> bool>, ghost bound: nat)
    returns (r: Outcome)
    requires host.Valid()
    requires forall c :: c in cs && c.DirEntry? ==> Dirs.Size(host.fs, c.dir.path) < bound
    modifies host
    ensures host.Valid()
    ensures Dirs.Change(r, host.fs) == DeleteEach(old(host.fs), host.libDir, cs, exclude, bound)
    decreases bound, 2
  {
    ghost var fs0 := host.fs;
    assert cs[0..] == cs;
    var i := 0;
    while i < |cs|
      invariant 0 <= i <= |cs| && host.Valid()
      invariant forall c :: c in cs[i..] && c.DirEntry? ==> Dirs.Size(host.fs, c.dir.path) < bound
      invariant DeleteEach(fs0, host.libDir, cs, exclude, bound) == DeleteEach(host.fs, host.libDir, cs[i..], exclude, bound)
    {
      assert cs[i..][1..] == cs[i + 1..];
      var skip := Matches(exclude, EntryName(cs[i]));
      if !skip {
        ghost var before := host.fs;
        r := DeleteEntry(host, cs[i], bound);
        if r.Fail? {
          return;
        }
        SizesShrink(before, host.fs, cs[i + 1..], bound);
      }
      i := i + 1;
    }
    return Pass;
  }

  /** The loop over the exclude patterns, stopping at the first that accepts the name. */
  method Matches(exclude: seq<string -> bool>, name: string) returns (found: bool)
    ensures found == Excluded(exclude, name)
  {
    found := false;
    var j := 0;
    while j < |exclude|
      invariant 0 <= j <= |exclude|
      invariant forall i :: 0 <= i < j ==> !exclude[i](name)
    {
      if exclude[j](name) {
        found := true;
        break;
      }
      j := j + 1;
    }
  }

  /** $path->delete() on one listed entry. */
  method DeleteEntry(host: Os.Host, e: Dirs.Entry, ghost bound: nat) returns (r: Outcome)
    requires host.Valid()
    requires e.DirEntry? ==> Dirs.Size(host.fs, e.dir.path) < bound
    modifies host
    ensures host.Valid()
    ensures Dirs.Change(r, host.fs) == DeleteEntryOn(old(host.fs), host.libDir, e, bound)
    decreases bound, 1
  {
    match e
    case FileEntry(p) =>
      r := Files.DeleteAt(host, p);
    case DirEntry(sub) =>
      r := Delete(host, sub);
  }

  /** The handle listDirectory makes for an entry is named by the entry's name. */
  lemma EntryNameAt(fs: Os.Fs, k: string)
    requires k in fs.nodes && CanonicalLoc(k) && k != ""
    ensures EntryName(Dirs.EntryAt(fs, k)) == NameOf(k)
  {
    DirnameOfCanonical(k);
    if fs.nodes[k].FileNode? {
      assert Dirs.EntryAt(fs, k) == Dirs.FileEntry(k);
      assert EntryName(Dirs.FileEntry(k)) == Basename(k);
    } else {
      assert Dirs.EntryAt(fs, k) == Dirs.DirEntry(Dirs.Dir(DirOf(k)));
      assert EntryName(Dirs.DirEntry(Dirs.Dir(DirOf(k)))) == Basename(k + [Sep]);
    }
  }

  // ------------------------------------------------ what the operations promise

  /** Dir::delete checks, in order, that a directory is there and that it is
      writable, and changes nothing when either check fails. */
  lemma DeleteCheckOrder(fs: Os.Fs, base: string, l: string)
    requires Os.WellFormed(fs) && ValidBase(base) && CanonicalLoc(l)
    ensures var r := DeleteOn(fs, base, Dirs.Dir(DirOf(l)));
      && (!(l in fs.nodes && fs.nodes[l].DirNode?) ==> r == Dirs.Change(Fail(NotADirectory(DirOf(l))), fs))
      && (l in fs.nodes && fs.nodes[l].DirNode? && !fs.nodes[l].writable ==>
            r == Dirs.Change(Fail(PathNotWritable(DirOf(l))), fs))
  {
    Os.ResolveCanonical(l);
    assert Os.Lookup(fs, DirOf(l)) == if l in fs.nodes then Some(fs.nodes[l]) else None;
    if l in fs.nodes {
      Dirs.WalkAtExisting(fs, base, l);
    }
  }

  /** Dir::clear as written (no exclude pattern is honoured): nothing outside
      the directory goes and the directory stays. When it succeeds, what is
      left inside is at most empty subdirectories, and those only when the
      directory is read-only, so that rmdir could not remove them; a
      writable directory is left empty. */
  lemma ClearEffect(fs: Os.Fs, base: string, l: string)
    requires Os.WellFormed(fs) && ValidBase(base) && CanonicalLoc(l)
    ensures var r := ClearOn(fs, base, Dirs.Dir(DirOf(l)), []);
      && KeptBeyond(fs, r.fs, l)
      && (r.outcome.Pass? ==>
            && l in r.fs.nodes
            && (forall k :: k in Os.Below(r.fs.nodes, l) ==>
                  ParentLoc(k) == l && r.fs.nodes[k].DirNode? && !Os.WritableDir(fs, l))
            && (Os.WritableDir(fs, l) ==> Os.Below(r.fs.nodes, l) == {}))
  {
    ClearFacts(fs, base, l, []);
    var r := ClearOn(fs, base, Dirs.Dir(DirOf(l)), []);
    if r.outcome.Pass? {
      forall k | k in Os.Below(r.fs.nodes, l)
        ensures ParentLoc(k) == l && r.fs.nodes[k].DirNode? && !Os.WritableDir(fs, l)
      {
        var c := Os.EntryAbove(r.fs, k, l);
        assert !Excluded([], NameOf(c));
      }
    }
  }

  /** After Dir::clear of a writable directory succeeds, the directory is
      still there and listDirectory finds nothing in it. */
  lemma ClearLeavesEmpty(fs: Os.Fs, base: string, l: string)
    requires Os.WellFormed(fs) && ValidBase(base) && CanonicalLoc(l)
    ensures var r := ClearOn(fs, base, Dirs.Dir(DirOf(l)), []);
      r.outcome.Pass? && Os.WritableDir(fs, l) ==> Dirs.ListOn(r.fs, base, Dirs.Dir(DirOf(l)), Os.Star) == Ok([])
  {
    ClearEffect(fs, base, l);
    ClearFacts(fs, base, l, []);
    var r := ClearOn(fs, base, Dirs.Dir(DirOf(l)), []);
    if r.outcome.Pass? && Os.WritableDir(fs, l) {
      forall k | k in r.fs.order
        ensures !(k != "" && ParentLoc(k) == l)
      {
        if k != "" && ParentLoc(k) == l {
          Os.EntryInside(k);
        }
      }
      EntriesNone(r.fs.order, l, Os.Star);
      Dirs.ListOnTree(r.fs, base, l, Os.Star);
    }
  }

  /** No entry of l in the order: nothing is listed. */
  lemma {:induction false} EntriesNone(order: seq<string>, l: string, pat: Os.Pattern)
    requires forall k :: k in order ==> !(k != "" && ParentLoc(k) == l)
    ensures Os.Entries(order, l, pat) == []
    decreases |order|
  {
    if order != [] {
      assert order[0] in order;
      EntriesNone(order[1..], l, pat);
    }
  }

  /** Clearing with exclude patterns, as the documentation of Dir::clear
      promises: every node at or inside an entry whose name a pattern
      accepts is kept, and so is everything outside the directory. */
  lemma ClearExceptKeeps(fs: Os.Fs, base: string, l: string, exclude: seq<string -> bool>, c: string, k: string)
    requires Os.WellFormed(fs) && ValidBase(base) && CanonicalLoc(l)
    requires c != "" && ParentLoc(c) == l && Excluded(exclude, NameOf(c))
    ensures var r := ClearOn(fs, base, Dirs.Dir(DirOf(l)), exclude);
      k in fs.nodes && (Os.AtOrInside(k, c) || !Os.Inside(k, l)) ==> k in r.fs.nodes
  {
    ClearFacts(fs, base, l, exclude);
    if k in fs.nodes && Os.AtOrInside(k, c) {
      Os.AncestorPresent(fs, k, c);
    }
  }

  /** Dir::clear as written deletes a file the exclude patterns were meant
      to keep: whenever it succeeds the file is gone, where clearing with
      the patterns keeps it. */
  lemma ClearDeletesExcluded(fs: Os.Fs, base: string, l: string, exclude: seq<string -> bool>, c: string)
    requires Os.WellFormed(fs) && ValidBase(base) && CanonicalLoc(l)
    requires c in fs.nodes && fs.nodes[c].FileNode? && c != "" && ParentLoc(c) == l && Excluded(exclude, NameOf(c))
    ensures var r := ClearOn(fs, base, Dirs.Dir(DirOf(l)), []);
      r.outcome.Pass? ==> c !in r.fs.nodes
    ensures c in ClearOn(fs, base, Dirs.Dir(DirOf(l)), exclude).fs.nodes
  {
    ClearEffect(fs, base, l);
    Os.EntryInside(c);
    ClearExceptKeeps(fs, base, l, exclude, c, c);
  }

  // ------------------------------------------------ what deleting removes

  /** e is the handle of an entry of the directory l, as listDirectory makes it on fs. */
  ghost predicate Listed(fs: Os.Fs, l: string, e: Dirs.Entry) {
    var k := Dirs.EntryLoc(e);
    k in fs.nodes && CanonicalLoc(k) && k != "" && ParentLoc(k) == l && e == Dirs.EntryAt(fs, k)
  }

  /** Each handle of cs is one of an entry of l, and no entry has two. */
  ghost predicate AllListed(fs: Os.Fs, l: string, cs: seq<Dirs.Entry>) {
    && (forall e :: e in cs ==> Listed(fs, l, e))
    && (forall i, j :: 0 <= i < j < |cs| ==> Dirs.EntryLoc(cs[i]) != Dirs.EntryLoc(cs[j]))
  }

  /** No entry of cs that is deleted has k at or inside it. */
  ghost predicate Untouched(cs: seq<Dirs.Entry>, exclude: seq<string -> bool>, k: string) {
    forall e :: e in cs && !Excluded(exclude, EntryName(e)) ==> !Os.AtOrInside(k, Dirs.EntryLoc(e))
  }

  /** Every node of fs that is neither x nor inside x is still in fs'. */
  ghost predicate KeptOutside(fs: Os.Fs, fs': Os.Fs, x: string) {
    forall k :: k in fs.nodes && !Os.AtOrInside(k, x) ==> k in fs'.nodes
  }

  /** Every node of fs that is not inside l is still in fs'. */
  ghost predicate KeptBeyond(fs: Os.Fs, fs': Os.Fs, l: string) {
    forall k :: k in fs.nodes && !Os.Inside(k, l) ==> k in fs'.nodes
  }

  /** Every node of fs that no deleted entry of cs covers is still in fs'. */
  ghost predicate KeptUntouched(fs: Os.Fs, fs': Os.Fs, cs: seq<Dirs.Entry>, exclude: seq<string -> bool>) {
    forall k :: k in fs.nodes && Untouched(cs, exclude, k) ==> k in fs'.nodes
  }

  /** What is left at or inside the entry e of l is the entry itself, a
      directory, and only when l is read-only. */
  ghost predicate EntryCleared(fs: Os.Fs, fs': Os.Fs, e: Dirs.Entry, l: string) {
    forall k :: k in fs'.nodes && Os.AtOrInside(k, Dirs.EntryLoc(e)) ==>
      k == Dirs.EntryLoc(e) && e.DirEntry? && !Os.WritableDir(fs, l)
  }

  /** EntryCleared for every entry of cs that is deleted. */
  ghost predicate EntriesCleared(fs: Os.Fs, fs': Os.Fs, cs: seq<Dirs.Entry>, exclude: seq<string -> bool>, l: string) {
    forall e :: e in cs && !Excluded(exclude, EntryName(e)) ==> EntryCleared(fs, fs', e, l)
  }

  /** Nothing at or inside an entry of l whose name an exclude pattern accepts has gone. */
  ghost predicate KeptExcluded(fs: Os.Fs, fs': Os.Fs, l: string, exclude: seq<string -> bool>) {
    forall c, k ::
      (c in fs.nodes && c != "" && ParentLoc(c) == l && Excluded(exclude, NameOf(c)) && k in fs.nodes && Os.AtOrInside(k, c))
      ==> k in fs'.nodes
  }

  /** Of what is at or inside the other entries of l, only entries that are
      directories are left, and only when l is read-only. */
  ghost predicate ClearedBelow(fs: Os.Fs, fs': Os.Fs, l: string, exclude: seq<string -> bool>) {
    forall c, k ::
      (c != "" && ParentLoc(c) == l && !Excluded(exclude, NameOf(c)) && k in fs'.nodes && Os.AtOrInside(k, c))
      ==> (k == c && fs'.nodes[k].DirNode? && !Os.WritableDir(fs, l))
  }

  /** What a successful Dir::delete of l leaves: l was a writable directory,
      nothing is inside it any more, and it is gone itself exactly when rmdir
      could remove it: it is not the root and its parent is writable. */
  ghost predicate DirDeleted(fs: Os.Fs, fs': Os.Fs, l: string) {
    && Os.WritableDir(fs, l) && Os.Below(fs'.nodes, l) == {}
    && (l in fs'.nodes <==> !(l != "" && Os.WritableDir(fs, ParentLoc(l))))
  }

  /** Dir::delete removes nothing outside the directory, and does what
      DirDeleted says when it succeeds. */
  lemma {:induction false} DeleteFacts(fs: Os.Fs, base: string, l: string)
    requires Os.WellFormed(fs) && ValidBase(base) && CanonicalLoc(l)
    ensures var r := DeleteOn(fs, base, Dirs.Dir(DirOf(l)));
      KeptOutside(fs, r.fs, l) && (r.outcome.Pass? ==> DirDeleted(fs, r.fs, l))
    decreases Dirs.Size(fs, DirOf(l)), 4
  {
    var d := Dirs.Dir(DirOf(l));
    Os.ResolveCanonical(l);
    assert Os.Lookup(fs, d.path) == if l in fs.nodes then Some(fs.nodes[l]) else None;
    if l in fs.nodes && fs.nodes[l].DirNode? {
      Dirs.WalkAtExisting(fs, base, l);
      if fs.nodes[l].writable {
        var c := ClearOn(fs, base, d, []);
        ClearFacts(fs, base, l, []);
        if c.outcome.Pass? {
          assert DeleteOn(fs, base, d) == Dirs.Change(Pass, Os.Rmdir(c.fs, d.path).fs);
          RmdirAfterClear(fs, c.fs, l);
        }
      }
    }
  }

  /** rmdir once clearing a writable directory has succeeded. */
  lemma RmdirAfterClear(fs: Os.Fs, fs1: Os.Fs, l: string)
    requires Os.WellFormed(fs) && Shrunk(fs, fs1) && CanonicalLoc(l) && Os.WritableDir(fs, l)
    requires KeptBeyond(fs, fs1, l) && ClearedBelow(fs, fs1, l, [])
    ensures var fs2 := Os.Rmdir(fs1, DirOf(l)).fs;
      KeptOutside(fs, fs2, l) && DirDeleted(fs, fs2, l)
  {
    Os.ResolveCanonical(l);
    assert Os.WritableDir(fs1, l);
    forall k | k in fs1.nodes
      ensures !Os.Inside(k, l)
    {
      var e := Os.EntryAbove(fs1, k, l);
    }
    assert !Os.HasChildren(fs1, l) by {
      forall k | k in fs1.nodes && k != "" && ParentLoc(k) == l
        ensures false
      {
        Os.EntryInside(k);
      }
    }
    if l != "" {
      CanonicalParent(l);
      assert ParentLoc(l) in fs.nodes && !Os.AtOrInside(ParentLoc(l), l);
    }
  }

  /** Clearing removes nothing outside the directory and nothing at or
      inside an entry whose name an exclude pattern accepts. When it
      succeeds the directory was a readable one, and what ClearedBelow
      says holds. */
  lemma {:induction false} ClearFacts(fs: Os.Fs, base: string, l: string, exclude: seq<string -> bool>)
    requires Os.WellFormed(fs) && ValidBase(base) && CanonicalLoc(l)
    ensures var r := ClearOn(fs, base, Dirs.Dir(DirOf(l)), exclude);
      && KeptBeyond(fs, r.fs, l) && KeptExcluded(fs, r.fs, l, exclude)
      && (r.outcome.Pass? ==>
            l in fs.nodes && fs.nodes[l].DirNode? && fs.nodes[l].readable && ClearedBelow(fs, r.fs, l, exclude))
    decreases Dirs.Size(fs, DirOf(l)), 3
  {
    var d := Dirs.Dir(DirOf(l));
    if Dirs.ListOn(fs, base, d, Os.Star).Ok? {
      Dirs.ListOnSucceeds(fs, base, d, Os.Star);
      Os.ResolveCanonical(l);
      Dirs.ChildrenSmaller(fs, l, Os.Star);
      var cs := Dirs.Listing(fs, l, Os.Star);
      var bound := Dirs.Size(fs, d.path);
      ListingListed(fs, l);
      DeleteEachFacts(fs, base, cs, exclude, bound, l);
      var r := DeleteEach(fs, base, cs, exclude, bound);
      assert ClearOn(fs, base, d, exclude) == r;
      UntouchedBeyond(fs, l, cs, exclude);
      UntouchedExcluded(fs, l, cs, exclude);
      if r.outcome.Pass? {
        ClearCovered(fs, r.fs, l, exclude);
      }
    }
  }

  /** The listing of a directory holds each of its entries once, as listDirectory makes them. */
  lemma ListingListed(fs: Os.Fs, l: string)
    requires Os.WellFormed(fs)
    ensures AllListed(fs, l, Dirs.Listing(fs, l, Os.Star))
  {
    var es := Os.Entries(fs.order, l, Os.Star);
    var cs := Dirs.Listing(fs, l, Os.Star);
    forall i | 0 <= i < |cs|
      ensures Dirs.EntryLoc(cs[i]) == es[i]
    {
      Dirs.EntryAtLoc(fs, es[i]);
    }
  }

  /** A node outside l is at or inside no entry of l. */
  lemma UntouchedBeyond(fs: Os.Fs, l: string, cs: seq<Dirs.Entry>, exclude: seq<string -> bool>)
    requires forall e :: e in cs ==> Listed(fs, l, e)
    ensures forall k :: !Os.Inside(k, l) ==> Untouched(cs, exclude, k)
  {
    forall k, e | !Os.Inside(k, l) && e in cs
      ensures !Os.AtOrInside(k, Dirs.EntryLoc(e))
    {
      var x := Dirs.EntryLoc(e);
      Os.EntryInside(x);
      if Os.Inside(k, x) {
        Os.InsideTransitive(k, x, l);
      }
    }
  }

  /** A node at or inside an excluded entry of l is at or inside no deleted entry. */
  lemma UntouchedExcluded(fs: Os.Fs, l: string, cs: seq<Dirs.Entry>, exclude: seq<string -> bool>)
    requires forall e :: e in cs ==> Listed(fs, l, e)
    ensures forall c, k :: c != "" && ParentLoc(c) == l && Excluded(exclude, NameOf(c)) && Os.AtOrInside(k, c) ==>
      Untouched(cs, exclude, k)
  {
    forall c, k, e | c != "" && ParentLoc(c) == l && Excluded(exclude, NameOf(c)) && Os.AtOrInside(k, c)
        && e in cs && !Excluded(exclude, EntryName(e))
      ensures !Os.AtOrInside(k, Dirs.EntryLoc(e))
    {
      var x := Dirs.EntryLoc(e);
      EntryNameAt(fs, x);
      if Os.AtOrInside(k, x) {
        Os.OneSiblingAbove(k, c, x);
      }
    }
  }

  /** From the entries of the listing to every node at or inside them. */
  lemma ClearCovered(fs: Os.Fs, fs': Os.Fs, l: string, exclude: seq<string -> bool>)
    requires Os.WellFormed(fs) && Shrunk(fs, fs')
    requires EntriesCleared(fs, fs', Dirs.Listing(fs, l, Os.Star), exclude, l)
    ensures ClearedBelow(fs, fs', l, exclude)
  {
    var es := Os.Entries(fs.order, l, Os.Star);
    var cs := Dirs.Listing(fs, l, Os.Star);
    forall c, k | c != "" && ParentLoc(c) == l && !Excluded(exclude, NameOf(c)) && k in fs'.nodes && Os.AtOrInside(k, c)
      ensures k == c && fs'.nodes[k].DirNode? && !Os.WritableDir(fs, l)
    {
      Os.AncestorPresent(fs, k, c);
      assert c in es;
      var i :| 0 <= i < |es| && es[i] == c;
      assert cs[i] == Dirs.EntryAt(fs, c) && cs[i] in cs;
      EntryNameAt(fs, c);
      Dirs.EntryAtLoc(fs, c);
      assert EntryCleared(fs, fs', cs[i], l);
    }
  }

  /** The loop of clear over listed entries: nodes no deleted entry covers
      stay; when the loop succeeds, every deleted entry is cleared. */
  lemma {:induction false} DeleteEachFacts(fs: Os.Fs, base: string, cs: seq<Dirs.Entry>, exclude: seq<string -> bool>,
                                           bound: nat, l: string)
    requires Os.WellFormed(fs) && ValidBase(base) && AllListed(fs, l, cs)
    requires forall c :: c in cs && c.DirEntry? ==> Dirs.Size(fs, c.dir.path) < bound
    ensures var r := DeleteEach(fs, base, cs, exclude, bound);
      KeptUntouched(fs, r.fs, cs, exclude) && (r.outcome.Pass? ==> EntriesCleared(fs, r.fs, cs, exclude, l))
    decreases bound, 2, |cs|
  {
    if cs != [] {
      var rest := cs[1..];
      var r := DeleteEach(fs, base, cs, exclude, bound);
      if Excluded(exclude, EntryName(cs[0])) {
        AllListedTail(fs, l, cs);
        DeleteEachFacts(fs, base, rest, exclude, bound, l);
        assert r == DeleteEach(fs, base, rest, exclude, bound);
        SkipStep(fs, r.fs, cs, exclude, l);
      } else {
        var c := DeleteEntryOn(fs, base, cs[0], bound);
        DeleteEntryFacts(fs, base, cs[0], bound, l);
        if c.outcome.Pass? {
          SizesShrink(fs, c.fs, rest, bound);
          RestListed(fs, c.fs, cs, l);
          DeleteEachFacts(c.fs, base, rest, exclude, bound, l);
          assert r == DeleteEach(c.fs, base, rest, exclude, bound);
          DeleteStep(fs, c.fs, r.fs, cs, exclude, l);
        } else {
          assert r == c;
          assert cs[0] in cs;
        }
      }
    }
  }

  lemma AllListedTail(fs: Os.Fs, l: string, cs: seq<Dirs.Entry>)
    requires AllListed(fs, l, cs) && cs != []
    ensures AllListed(fs, l, cs[1..])
  {
    forall i, j | 0 <= i < j < |cs[1..]|
      ensures Dirs.EntryLoc(cs[1..][i]) != Dirs.EntryLoc(cs[1..][j])
    {
      assert cs[1..][i] == cs[i + 1] && cs[1..][j] == cs[j + 1];
    }
  }

  /** An excluded head changes nothing about what the rest of the loop keeps and clears. */
  lemma SkipStep(fs: Os.Fs, fs': Os.Fs, cs: seq<Dirs.Entry>, exclude: seq<string -> bool>, l: string)
    requires cs != [] && Excluded(exclude, EntryName(cs[0]))
    ensures KeptUntouched(fs, fs', cs[1..], exclude) ==> KeptUntouched(fs, fs', cs, exclude)
    ensures EntriesCleared(fs, fs', cs[1..], exclude, l) ==> EntriesCleared(fs, fs', cs, exclude, l)
  {
    assert forall e :: e in cs ==> e == cs[0] || e in cs[1..];
  }

  /** After the head is deleted, the other entries are still listed as they were. */
  lemma RestListed(fs: Os.Fs, fs1: Os.Fs, cs: seq<Dirs.Entry>, l: string)
    requires AllListed(fs, l, cs) && cs != [] && Shrunk(fs, fs1) && KeptOutside(fs, fs1, Dirs.EntryLoc(cs[0]))
    ensures AllListed(fs1, l, cs[1..])
  {
    AllListedTail(fs, l, cs);
    var k0 := Dirs.EntryLoc(cs[0]);
    forall e | e in cs[1..]
      ensures Listed(fs1, l, e)
    {
      var i :| 0 <= i < |cs[1..]| && cs[1..][i] == e;
      assert cs[i + 1] == e && cs[0] in cs;
      Os.SiblingNotInside(Dirs.EntryLoc(e), k0);
    }
  }

  /** Deleting the head, then the rest: the facts of the two parts make the facts of the whole. */
  lemma DeleteStep(fs: Os.Fs, fs1: Os.Fs, fs2: Os.Fs, cs: seq<Dirs.Entry>, exclude: seq<string -> bool>, l: string)
    requires cs != [] && !Excluded(exclude, EntryName(cs[0])) && Listed(fs, l, cs[0])
    requires Shrunk(fs, fs1) && Shrunk(fs1, fs2)
    requires KeptOutside(fs, fs1, Dirs.EntryLoc(cs[0])) && EntryCleared(fs, fs1, cs[0], l)
    requires KeptUntouched(fs1, fs2, cs[1..], exclude)
    ensures KeptUntouched(fs, fs2, cs, exclude)
    ensures EntriesCleared(fs1, fs2, cs[1..], exclude, l) ==> EntriesCleared(fs, fs2, cs, exclude, l)
  {
    DeleteStepKeeps(fs, fs1, fs2, cs, exclude);
    if EntriesCleared(fs1, fs2, cs[1..], exclude, l) {
      DeleteStepClears(fs, fs1, fs2, cs, exclude, l);
    }
  }

  lemma DeleteStepKeeps(fs: Os.Fs, fs1: Os.Fs, fs2: Os.Fs, cs: seq<Dirs.Entry>, exclude: seq<string -> bool>)
    requires cs != [] && !Excluded(exclude, EntryName(cs[0]))
    requires KeptOutside(fs, fs1, Dirs.EntryLoc(cs[0])) && KeptUntouched(fs1, fs2, cs[1..], exclude)
    ensures KeptUntouched(fs, fs2, cs, exclude)
  {
    forall k | k in fs.nodes && Untouched(cs, exclude, k)
      ensures k in fs2.nodes
    {
      assert cs[0] in cs;
      assert Untouched(cs[1..], exclude, k) by {
        assert forall e :: e in cs[1..] ==> e in cs;
      }
    }
  }

  lemma DeleteStepClears(fs: Os.Fs, fs1: Os.Fs, fs2: Os.Fs, cs: seq<Dirs.Entry>, exclude: seq<string -> bool>, l: string)
    requires cs != [] && Listed(fs, l, cs[0])
    requires Shrunk(fs, fs1) && Shrunk(fs1, fs2)
    requires KeptOutside(fs, fs1, Dirs.EntryLoc(cs[0])) && EntryCleared(fs, fs1, cs[0], l)
    requires EntriesCleared(fs1, fs2, cs[1..], exclude, l)
    ensures EntriesCleared(fs, fs2, cs, exclude, l)
  {
    var k0 := Dirs.EntryLoc(cs[0]);
    assert !Os.AtOrInside(l, k0);
    assert Os.WritableDir(fs1, l) == Os.WritableDir(fs, l);
    forall e | e in cs && !Excluded(exclude, EntryName(e))
      ensures EntryCleared(fs, fs2, e, l)
    {
      if e != cs[0] {
        assert e in cs[1..];
      }
    }
  }

  /** Deleting one listed entry: nothing outside it goes; when it succeeds,
      the entry is cleared. */
  lemma DeleteEntryFacts(fs: Os.Fs, base: string, e: Dirs.Entry, bound: nat, l: string)
    requires Os.WellFormed(fs) && ValidBase(base) && Listed(fs, l, e)
    requires e.DirEntry? ==> Dirs.Size(fs, e.dir.path) < bound
    ensures var r := DeleteEntryOn(fs, base, e, bound);
      KeptOutside(fs, r.fs, Dirs.EntryLoc(e)) && (r.outcome.Pass? ==> EntryCleared(fs, r.fs, e, l))
    decreases bound, 1
  {
    var k0 := Dirs.EntryLoc(e);
    if e.FileEntry? {
      FileEntryFacts(fs, base, e, l);
    } else {
      DirEntryFacts(fs, base, e, bound, l);
    }
  }

  lemma DirEntryFacts(fs: Os.Fs, base: string, e: Dirs.Entry, bound: nat, l: string)
    requires Os.WellFormed(fs) && ValidBase(base) && Listed(fs, l, e) && e.DirEntry?
    requires Dirs.Size(fs, e.dir.path) < bound
    ensures var r := DeleteOn(fs, base, e.dir);
      KeptOutside(fs, r.fs, Dirs.EntryLoc(e)) && (r.outcome.Pass? ==> EntryCleared(fs, r.fs, e, l))
    decreases bound, 0
  {
    var k0 := Dirs.EntryLoc(e);
    assert e.dir == Dirs.Dir(DirOf(k0));
    DeleteFacts(fs, base, k0);
    var r := DeleteOn(fs, base, e.dir);
    if r.outcome.Pass? {
      forall k | k in r.fs.nodes && Os.AtOrInside(k, k0)
        ensures k == k0
      {
        assert k !in Os.Below(r.fs.nodes, k0);
      }
    }
  }

  lemma FileEntryFacts(fs: Os.Fs, base: string, e: Dirs.Entry, l: string)
    requires Os.WellFormed(fs) && ValidBase(base) && Listed(fs, l, e) && e.FileEntry?
    ensures var r := Files.DeleteOn(fs, base, Dirs.EntryLoc(e));
      KeptOutside(fs, r.fs, Dirs.EntryLoc(e)) && (r.outcome.Pass? ==> EntryCleared(fs, r.fs, e, l))
  {
    var k0 := Dirs.EntryLoc(e);
    Files.DeleteShrinks(fs, base, k0);
    forall k | k in fs.nodes
      ensures !Os.Inside(k, k0)
    {
      Os.AncestorPresent(fs, k, k0);
    }
  }

  // ------------------------------------------------------------ Dir::write

  /** What Dir::write is given: a File handle or a Dir handle. */
  datatype Item = ItemFile(file: Files.File) | ItemDir(dir: Dirs.Dir)

  /** What Dir::write reads of the item: a file's path and name, nothing of a directory. */
  datatype Payload = FilePayload(src: string, name: string) | DirPayload

  function PayloadOf(item: Item): Payload
    reads if item.ItemFile? then {item.file} else {}
  {
    match item
    case ItemFile(f) => FilePayload(f.path, PathInfo(f.path).basename)
    case ItemDir(_) => DirPayload
  }

  /** Dir::write on a filesystem: the directory must be writable (or
      creatable); a file is then copied into it under its own name, after
      touch, unless that name is taken and overwriting is off. A directory
      item is accepted and nothing is done. The result of copy is not looked at. */
  function WriteOn(fs: Os.Fs, base: string, d: Dirs.Dir, p: Payload, overwrite: bool): Dirs.Change
    requires ValidBase(base)
  {
    match Dirs.WalkWritable(fs, base, d.path)
    case Err(e) => Dirs.Change(Fail(e), fs)
    case Ok(writable) =>
      if !writable then Dirs.Change(Fail(PathNotWritable(d.path)), fs)
      else
        match p
        case DirPayload => Dirs.Change(Pass, fs)
        case FilePayload(src, name) =>
          var t := Dirs.TouchOn(fs, base, d);
          if t.outcome.Fail? then t
          else
            var dest := d.path + [Sep] + name;
            if !overwrite && Os.PathExists(t.fs, dest) then Dirs.Change(Fail(PathExists(dest)), t.fs)
            else Dirs.Change(Pass, Os.Copy(t.fs, src, dest).fs)
  }

  /** Dir::write. A file item is re-pointed at its copy, through realPath,
      when the write succeeds; when it fails only its name cache may have been filled. */
  method Write(host: Os.Host, d: Dirs.Dir, item: Item, overwrite: bool) returns (r: Outcome)
    requires host.Valid()
    requires item.ItemFile? ==> item.file.Coherent()
    modifies host, if item.ItemFile? then {item.file} else {}
    ensures host.Valid()
    ensures Dirs.Change(r, host.fs) == WriteOn(old(host.fs), host.libDir, d, old(PayloadOf(item)), overwrite)
    ensures item.ItemFile? && r.Pass? ==>
      && item.file.path == RealPath(Str(d.path + [Sep] + old(PathInfo(item.file.path).basename)), host.libDir)
      && item.file.Cleared()
    ensures item.ItemFile? && r.Fail? ==> item.file.path == old(item.file.path) && item.file.Coherent()
  {
    var w := Dirs.IsWritable(host, d);
    if w.Err? {
      return Fail(w.error);
    }
    if !w.value {
      return Fail(PathNotWritable(d.path));
    }
    match item
    case ItemDir(_) =>
      return Pass;
    case ItemFile(f) =>
      r := Dirs.Touch(host, d);
      if r.Fail? {
        return;
      }
      var name := f.GetName();
      var dest := d.path + [Sep] + name;
      if !overwrite && Os.PathExists(host.fs, dest) {
        return Fail(PathExists(dest));
      }
      Os.CopyKeepsWellFormed(host.fs, f.path, dest);
      var copied := Os.Copy(host.fs, f.path, dest);
      host.fs := copied.fs;
      f.Init(Str(dest), host.libDir);
      return Pass;
  }

  /** A run of two separators collapses like one. */
  lemma {:induction false} CollapseDoubled(a: string, b: string)
    ensures CollapseSeps(a + [Sep] + [Sep] + b) == CollapseSeps(a + [Sep] + b)
    decreases |a|
  {
    var t := a + [Sep] + [Sep] + b;
    var u := a + [Sep] + b;
    if a == [] {
      assert t[1..] == u;
    } else {
      assert t[1..] == a[1..] + [Sep] + [Sep] + b;
      assert u[1..] == a[1..] + [Sep] + b;
      assert t[0] == u[0] && t[1] == u[1];
      CollapseDoubled(a[1..], b);
    }
  }

  /** The destination Dir::write builds, a Dir path, a separator and the
      name, names the location of the name inside the directory. */
  lemma ResolveJoined(k: string)
    requires CanonicalLoc(k) && k != ""
    ensures Os.Resolve(DirOf(ParentLoc(k)) + [Sep] + NameOf(k)) == Some(k)
  {
    CanonicalParent(k);
    var pl := ParentLoc(k);
    var n := NameOf(k);
    assert DirOf(pl) + [Sep] + n == pl + [Sep] + [Sep] + n;
    CollapseDoubled(pl, n);
    Os.ResolveCanonical(k);
  }

  /** The checks of Dir::write, on a directory that exists: a file where
      the directory should be is NotADirectory, a read-only directory is
      PathNotWritable, and either leaves the filesystem as it was. A
      directory item never changes the filesystem. */
  lemma WriteChecks(fs: Os.Fs, base: string, l: string, p: Payload, overwrite: bool)
    requires Os.WellFormed(fs) && ValidBase(base) && CanonicalLoc(l)
    ensures var r := WriteOn(fs, base, Dirs.Dir(DirOf(l)), p, overwrite);
      && (l in fs.nodes && fs.nodes[l].FileNode? ==> r == Dirs.Change(Fail(NotADirectory(DirOf(l))), fs))
      && (l in fs.nodes && fs.nodes[l].DirNode? && !fs.nodes[l].writable ==>
            r == Dirs.Change(Fail(PathNotWritable(DirOf(l))), fs))
      && (p.DirPayload? ==> r.fs == fs)
  {
    if l in fs.nodes {
      Dirs.WalkAtExisting(fs, base, l);
    }
  }

  /** Into a directory that exists and is writable, Dir::write of a file
      does not touch anything and goes straight to the name check and the copy. */
  lemma WriteIntoWritable(fs: Os.Fs, base: string, l: string, src: string, name: string, overwrite: bool)
    requires ValidBase(base) && CanonicalLoc(l) && Os.WritableDir(fs, l)
    ensures var dest := DirOf(l) + [Sep] + name;
      WriteOn(fs, base, Dirs.Dir(DirOf(l)), FilePayload(src, name), overwrite) ==
        if !overwrite && Os.PathExists(fs, dest) then Dirs.Change(Fail(PathExists(dest)), fs)
        else Dirs.Change(Pass, Os.Copy(fs, src, dest).fs)
  {
    Dirs.WalkAtExisting(fs, base, l);
    Os.ResolveCanonical(l);
    assert Dirs.TouchOn(fs, base, Dirs.Dir(DirOf(l))) == Dirs.Change(Pass, fs);
  }

  /** With overwriting off, a name already taken in the directory is
      refused with PathExists and nothing changes. */
  lemma WriteRefusesTaken(fs: Os.Fs, base: string, k: string, src: string)
    requires Os.WellFormed(fs) && ValidBase(base) && CanonicalLoc(k) && k != ""
    requires Os.WritableDir(fs, ParentLoc(k)) && k in fs.nodes
    ensures var l := ParentLoc(k);
      WriteOn(fs, base, Dirs.Dir(DirOf(l)), FilePayload(src, NameOf(k)), false)
        == Dirs.Change(Fail(PathExists(DirOf(l) + [Sep] + NameOf(k))), fs)
  {
    CanonicalParent(k);
    WriteIntoWritable(fs, base, ParentLoc(k), src, NameOf(k), false);
    ResolveJoined(k);
  }

  /** Into a writable directory, a readable source whose name is free (or
      may be overwritten, being a writable file) is copied: the name then
      holds the source's bytes and every other node is as it was. */
  lemma WriteCopies(fs: Os.Fs, base: string, k: string, src: string, overwrite: bool)
    requires Os.WellFormed(fs) && ValidBase(base) && CanonicalLoc(k) && k != ""
    requires Os.WritableDir(fs, ParentLoc(k)) && Os.GetContents(fs, src).Some?
    requires k in fs.nodes ==> overwrite && fs.nodes[k].FileNode? && fs.nodes[k].writable
    ensures var r := WriteOn(fs, base, Dirs.Dir(DirOf(ParentLoc(k))), FilePayload(src, NameOf(k)), overwrite);
      && r.outcome.Pass?
      && k in r.fs.nodes
      && r.fs.nodes[k] == Os.FileNode(Os.GetContents(fs, src).value, if k in fs.nodes then fs.nodes[k].readable else true, true)
      && (forall j :: j in fs.nodes && j != k ==> j in r.fs.nodes && r.fs.nodes[j] == fs.nodes[j])
      && r.fs.nodes.Keys == fs.nodes.Keys + {k}
  {
    CanonicalParent(k);
    WriteIntoWritable(fs, base, ParentLoc(k), src, NameOf(k), overwrite);
    ResolveJoined(k);
  }

  /** The result of copy is not looked at: when the name is taken by a
      directory and overwriting is on, Dir::write reports success and
      nothing has been written. */
  lemma WriteIgnoresFailedCopy(fs: Os.Fs, base: string, k: string, src: string)
    requires Os.WellFormed(fs) && ValidBase(base) && CanonicalLoc(k) && k != ""
    requires Os.WritableDir(fs, ParentLoc(k)) && k in fs.nodes && fs.nodes[k].DirNode?
    ensures WriteOn(fs, base, Dirs.Dir(DirOf(ParentLoc(k))), FilePayload(src, NameOf(k)), true) == Dirs.Change(Pass, fs)
  {
    CanonicalParent(k);
    WriteIntoWritable(fs, base, ParentLoc(k), src, NameOf(k), true);
    ResolveJoined(k);
  }
}
