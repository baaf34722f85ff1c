/** The operating system's filesystem, kept in memory: the state the library
    reads and changes through file_exists, is_file, is_dir, is_readable,
    is_writable, touch, file_put_contents, file_get_contents, unlink, rmdir,
    mkdir, rename, copy and glob. Each call is a function from the state
    before to whether it succeeded and the state after. */
module Os {
  import opened Text
  import opened Errors
  import opened Paths

  newtype byte = x: int | 0 <= x < 256

  /** A file with its bytes, or a directory; each with the two permission
      bits the library consults for the current user. */
  datatype Node =
    | FileNode(data: seq<byte>, readable: bool, writable: bool)
    | DirNode(readable: bool, writable: bool)

  /** The filesystem: nodes by canonical location, and the order in which
      the operating system enumerates directory entries. */
  datatype Fs = Fs(nodes: map<string, Node>, order: seq<string>)

  /** Whether a call succeeded, and the filesystem after it. */
  datatype Effect = Effect(ok: bool, fs: Fs)

  predicate Distinct(s: seq<string>) {
    forall i, j :: 0 <= i < j < |s| ==> s[i] != s[j]
  }

  /** The filesystem is a tree of canonical locations rooted at the directory
      "", and the enumeration order lists every node once. */
  ghost predicate WellFormed(fs: Fs) {
    && (forall k {:trigger CanonicalLoc(k)} :: k in fs.nodes ==> CanonicalLoc(k))
    && (forall k :: k in fs.nodes <==> k in fs.order)
    && Distinct(fs.order)
    && "" in fs.nodes && fs.nodes[""].DirNode?
    && (forall k :: k in fs.nodes && k != "" ==> ParentLoc(k) in fs.nodes && fs.nodes[ParentLoc(k)].DirNode?)
  }

  // ------------------------------------------------------------ lookups

  /** The location an absolute path names once separator runs and trailing
      separators are dropped. A relative path, or one with a "." or ".."
      segment left, names no node. */
  function Resolve(p: string): (r: Option<string>)
    ensures r.Some? ==> CanonicalLoc(r.value)
  {
    var l := RTrim(CollapseSeps(p));
    if IsAbsolute(p) && CanonicalLoc(l) then Some(l) else None
  }

  /** A canonical location names itself, with or without one trailing separator. */
  lemma ResolveCanonical(l: string)
    requires CanonicalLoc(l)
    ensures l != "" ==> Resolve(l) == Some(l)
    ensures Resolve(l + [Sep]) == Some(l)
  {
    var t := l + [Sep];
    forall i | 0 <= i < |t| - 1
      ensures !(t[i] == Sep && t[i + 1] == Sep)
    {
      if i + 1 < |l| {
        assert t[i] == l[i] && t[i + 1] == l[i + 1];
      }
    }
    CollapseSepsIdentity(t);
    assert t[..|t| - 1] == l;
    if l != "" {
      CollapseSepsIdentity(l);
    }
  }

  /** A Dir path that names a location is that location and one separator. */
  lemma ResolveDirPath(q: DirPath)
    requires Resolve(q).Some?
    ensures q == DirOf(Resolve(q).value)
  {
    CollapseSepsIdentity(q);
    if |q| >= 2 {
      assert q[|q| - 2] != Sep;
      assert RTrim(q) == q[..|q| - 1] by {
        assert q[..|q| - 1][..|q| - 2] == q[..|q| - 2];
      }
    }
  }

  function Lookup(fs: Fs, p: string): Option<Node> {
    match Resolve(p)
    case None => None
    case Some(l) => if l in fs.nodes then Some(fs.nodes[l]) else None
  }

  /** file_exists */
  predicate PathExists(fs: Fs, p: string) {
    Lookup(fs, p).Some?
  }

  /** is_file */
  predicate IsFile(fs: Fs, p: string) {
    Lookup(fs, p).Some? && Lookup(fs, p).value.FileNode?
  }

  /** is_dir */
  predicate IsDir(fs: Fs, p: string) {
    Lookup(fs, p).Some? && Lookup(fs, p).value.DirNode?
  }

  /** is_readable */
  predicate IsReadable(fs: Fs, p: string) {
    Lookup(fs, p).Some? && Lookup(fs, p).value.readable
  }

  /** is_writable */
  predicate IsWritable(fs: Fs, p: string) {
    Lookup(fs, p).Some? && Lookup(fs, p).value.writable
  }

  /** file_get_contents: the bytes of a readable file. */
  function GetContents(fs: Fs, p: string): Option<seq<byte>> {
    match Lookup(fs, p)
    case Some(FileNode(data, readable, _)) => if readable then Some(data) else None
    case _ => None
  }

  // -------------------------------------------------------- building blocks

  predicate WritableDir(fs: Fs, l: string) {
    l in fs.nodes && fs.nodes[l].DirNode? && fs.nodes[l].writable
  }

  /** A new entry can be made at l: nothing is there and its directory is writable. */
  predicate CanCreate(fs: Fs, l: string) {
    l != "" && l !in fs.nodes && WritableDir(fs, ParentLoc(l))
  }

  function Without(s: seq<string>, x: string): (r: seq<string>)
    ensures forall y :: y in r <==> y in s && y != x
    ensures Distinct(s) ==> Distinct(r)
    decreases |s|
  {
    if s == [] then []
    else
      var rest := Without(s[1..], x);
      if s[0] == x then rest
      else
        assert Distinct(s) ==> s[0] !in s[1..];
        [s[0]] + rest
  }

  /** The node n placed at l; a new location joins the end of the enumeration order. */
  function Put(fs: Fs, l: string, n: Node): Fs {
    Fs(fs.nodes[l := n], if l in fs.nodes then fs.order else fs.order + [l])
  }

  function Remove(fs: Fs, l: string): Fs {
    Fs(fs.nodes - {l}, Without(fs.order, l))
  }

  predicate HasChildren(fs: Fs, l: string) {
    exists k :: k in fs.nodes && k != "" && ParentLoc(k) == l
  }

  lemma PutKeepsWellFormed(fs: Fs, l: string, n: Node)
    requires WellFormed(fs) && CanonicalLoc(l) && l != ""
    requires ParentLoc(l) in fs.nodes && fs.nodes[ParentLoc(l)].DirNode?
    requires l in fs.nodes && fs.nodes[l].DirNode? && HasChildren(fs, l) ==> n.DirNode?
    ensures WellFormed(Put(fs, l, n))
  {
    var fs' := Put(fs, l, n);
    if l !in fs.nodes {
      forall i, j | 0 <= i < j < |fs'.order|
        ensures fs'.order[i] != fs'.order[j]
      {
        if j == |fs.order| {
          assert fs'.order[i] == fs.order[i];
        }
      }
    }
    forall k | k in fs'.nodes && k != ""
      ensures ParentLoc(k) in fs'.nodes && fs'.nodes[ParentLoc(k)].DirNode?
    {
      if k != l && ParentLoc(k) == l {
        assert HasChildren(fs, l);
      }
    }
  }

  /** Put changes the node at l and no other. */
  lemma PutFrame(fs: Fs, l: string, n: Node)
    ensures l in Put(fs, l, n).nodes && Put(fs, l, n).nodes[l] == n
    ensures forall k :: k in fs.nodes && k != l ==> k in Put(fs, l, n).nodes && Put(fs, l, n).nodes[k] == fs.nodes[k]
  {
  }

  /** touch and file_put_contents change no node but the one at l. */
  lemma TouchFrame(fs: Fs, l: string)
    requires Resolve(l) == Some(l)
    ensures forall k :: k in Touch(fs, l).fs.nodes && k != l ==> k in fs.nodes && Touch(fs, l).fs.nodes[k] == fs.nodes[k]
  {
  }

  lemma PutContentsFrame(fs: Fs, l: string, data: seq<byte>, append: bool)
    requires Resolve(l) == Some(l)
    ensures var w := FilePutContents(fs, l, data, append);
      forall k :: k in w.fs.nodes && k != l ==> k in fs.nodes && w.fs.nodes[k] == fs.nodes[k]
  {
  }

  /** rename changes no node but the destination, apart from removing the source. */
  lemma RenameFrame(fs: Fs, s: string, d: string)
    requires Resolve(s) == Some(s) && Resolve(d) == Some(d)
    ensures var fs' := Rename(fs, s, d).fs;
      forall k :: k in fs'.nodes && k != d ==> k in fs.nodes && fs'.nodes[k] == fs.nodes[k]
  {
  }

  /** rename from a directory that is not writable changes nothing. */
  lemma RenameFromReadOnly(fs: Fs, s: string, d: string)
    requires Resolve(s) == Some(s) && !WritableDir(fs, ParentLoc(s))
    ensures Rename(fs, s, d) == Effect(false, fs)
  {
  }

  lemma RemoveKeepsWellFormed(fs: Fs, l: string)
    requires WellFormed(fs) && l != "" && !HasChildren(fs, l)
    ensures WellFormed(Remove(fs, l))
  {
  }

  // -------------------------------------------------------------- calls

  /** touch: an existing node is left as it is (timestamps are not modelled)
      and the call succeeds when it is writable; a missing file is created
      empty, readable and writable, when its directory is writable. */
  function Touch(fs: Fs, p: string): Effect {
    match Resolve(p)
    case None => Effect(false, fs)
    case Some(l) =>
      if l in fs.nodes then Effect(fs.nodes[l].writable, fs)
      else if CanCreate(fs, l) then Effect(true, Put(fs, l, FileNode([], true, true)))
      else Effect(false, fs)
  }

  /** file_put_contents: replaces the bytes of a writable file, or extends
      them when append (FILE_APPEND) is set, or creates the file, readable
      and writable, in a writable directory. */
  function FilePutContents(fs: Fs, p: string, data: seq<byte>, append: bool): Effect {
    match Resolve(p)
    case None => Effect(false, fs)
    case Some(l) =>
      if l in fs.nodes then
        var n := fs.nodes[l];
        if n.FileNode? && n.writable then
          Effect(true, Put(fs, l, FileNode(if append then n.data + data else data, n.readable, true)))
        else Effect(false, fs)
      else if CanCreate(fs, l) then Effect(true, Put(fs, l, FileNode(data, true, true)))
      else Effect(false, fs)
  }

  /** unlink: removes a file from a writable directory. */
  function Unlink(fs: Fs, p: string): Effect {
    match Resolve(p)
    case None => Effect(false, fs)
    case Some(l) =>
      if l != "" && l in fs.nodes && fs.nodes[l].FileNode? && WritableDir(fs, ParentLoc(l))
      then Effect(true, Remove(fs, l))
      else Effect(false, fs)
  }

  /** rmdir: removes an empty directory other than the root from a writable directory. */
  function Rmdir(fs: Fs, p: string): Effect {
    match Resolve(p)
    case None => Effect(false, fs)
    case Some(l) =>
      if l != "" && l in fs.nodes && fs.nodes[l].DirNode? && !HasChildren(fs, l) && WritableDir(fs, ParentLoc(l))
      then Effect(true, Remove(fs, l))
      else Effect(false, fs)
  }

  /** rename: moves a file, bytes and permissions, out of a writable directory
      into a writable directory, replacing a file of that name there. */
  function Rename(fs: Fs, src: string, dst: string): Effect {
    match Resolve(src)
    case None => Effect(false, fs)
    case Some(s) =>
      match Resolve(dst)
      case None => Effect(false, fs)
      case Some(d) =>
        if !(s != "" && s in fs.nodes && fs.nodes[s].FileNode? && WritableDir(fs, ParentLoc(s))) then Effect(false, fs)
        else if d == s then Effect(true, fs)
        else if d == "" || (d in fs.nodes && fs.nodes[d].DirNode?) || !WritableDir(fs, ParentLoc(d)) then Effect(false, fs)
        else Effect(true, Remove(Put(fs, d, fs.nodes[s]), s))
  }

  /** copy: the bytes of a readable file, written to the destination as
      file_put_contents writes them. */
  function Copy(fs: Fs, src: string, dst: string): Effect {
    match GetContents(fs, src)
    case None => Effect(false, fs)
    case Some(data) => FilePutContents(fs, dst, data, false)
  }

  /** The missing locations on the way from the tree down to l, the shallowest first. */
  function MissingChain(nodes: map<string, Node>, l: string): seq<string>
    decreases |l|
  {
    if l == "" || l in nodes then [] else MissingChain(nodes, ParentLoc(l)) + [l]
  }

  /** The deepest location on the way up from l that exists. */
  function NearestExisting(nodes: map<string, Node>, l: string): string
    decreases |l|
  {
    if l == "" || l in nodes then l else NearestExisting(nodes, ParentLoc(l))
  }

  function PutDirs(fs: Fs, ls: seq<string>): Fs
    decreases |ls|
  {
    if ls == [] then fs else PutDirs(Put(fs, ls[0], DirNode(true, true)), ls[1..])
  }

  /** mkdir with the recursive flag: when nothing is at the path and the
      deepest existing location above it is a writable directory, creates
      every missing directory down to the path, readable and writable. */
  function Mkdir(fs: Fs, p: string): Effect {
    match Resolve(p)
    case None => Effect(false, fs)
    case Some(l) =>
      if l in fs.nodes then Effect(false, fs)
      else if WritableDir(fs, NearestExisting(fs.nodes, l)) then Effect(true, PutDirs(fs, MissingChain(fs.nodes, l)))
      else Effect(false, fs)
  }

  /** How a glob pattern selects entry names; the default "*" is Star. */
  datatype Pattern = Star | Accepting(accepts: string -> bool)

  predicate Matches(pat: Pattern, name: string) {
    match pat
    case Star => true
    case Accepting(accepts) => accepts(name)
  }

  /** The locations in order that are entries of the directory at l and whose
      names the pattern accepts, in that order. */
  function Entries(order: seq<string>, l: string, pat: Pattern): (r: seq<string>)
    ensures forall k :: k in r <==> k in order && k != "" && ParentLoc(k) == l && Matches(pat, NameOf(k))
    ensures Distinct(order) ==> Distinct(r)
    decreases |order|
  {
    if order == [] then []
    else
      var rest := Entries(order[1..], l, pat);
      var k := order[0];
      if k != "" && ParentLoc(k) == l && Matches(pat, NameOf(k)) then
        assert Distinct(order) ==> k !in order[1..];
        [k] + rest
      else rest
  }

  /** glob(dirPath . pattern): each matching entry of the directory, spelled
      as dirPath followed by the entry's name. */
  function Glob(fs: Fs, dirPath: string, pat: Pattern): (r: seq<string>)
    ensures Resolve(dirPath).None? ==> r == []
  {
    match Resolve(dirPath)
    case None => []
    case Some(l) =>
      if l in fs.nodes && fs.nodes[l].DirNode? then
        var es := Entries(fs.order, l, pat);
        seq(|es|, i requires 0 <= i < |es| => dirPath + NameOf(es[i]))
      else []
  }

  // ------------------------------------------------------------ subtrees

  /** k lies inside the directory at l, at any depth. */
  predicate Inside(k: string, l: string) {
    |l| < |k| && k[..|l|] == l && k[|l|] == Sep
  }

  /** The nodes inside the directory at l. */
  ghost function Below(nodes: map<string, Node>, l: string): set<string> {
    set k | k in nodes && Inside(k, l)
  }

  lemma EntryInside(k: string)
    requires CanonicalLoc(k) && k != ""
    ensures Inside(k, ParentLoc(k))
  {
    CanonicalParent(k);
    assert k[..|ParentLoc(k)|] == ParentLoc(k);
  }

  lemma InsideTransitive(x: string, k: string, l: string)
    requires Inside(x, k) && Inside(k, l)
    ensures Inside(x, l)
  {
    assert x[..|k|][..|l|] == x[..|l|];
    assert x[..|k|][|l|] == x[|l|];
  }

  /** The nodes inside an entry of a directory are fewer than those inside the directory. */
  lemma BelowEntrySmaller(nodes: map<string, Node>, k: string)
    requires k in nodes && CanonicalLoc(k) && k != ""
    ensures |Below(nodes, k)| < |Below(nodes, ParentLoc(k))|
  {
    EntryInside(k);
    forall x | x in Below(nodes, k)
      ensures x in Below(nodes, ParentLoc(k))
    {
      InsideTransitive(x, k, ParentLoc(k));
    }
    var a, b := Below(nodes, k), Below(nodes, ParentLoc(k));
    assert k in b - a;
    assert b == a + (b - a) && a * (b - a) == {};
  }


  /** k is the location c or lies inside it. */
  predicate AtOrInside(k: string, c: string) {
    k == c || Inside(k, c)
  }

  /** A location inside l has its parent at l or inside l. */
  lemma ParentInside(k: string, l: string)
    ensures Inside(k, l) ==> |ParentLoc(k)| >= |l| && AtOrInside(ParentLoc(k), l)
  {
    if Inside(k, l) {
      var j := LastIndex(k, Sep);
      assert j >= |l|;
      assert ParentLoc(k) == k[..j];
      assert k[..j][..|l|] == l;
    }
  }

  /** Two entries of the same directory do not lie inside each other. */
  lemma SiblingNotInside(a: string, b: string)
    requires b != "" && ParentLoc(a) == ParentLoc(b)
    ensures !Inside(a, b)
  {
    ParentInside(a, b);
  }

  /** Of two locations above k, the longer lies inside the shorter. */
  lemma LongerInside(k: string, a: string, b: string)
    ensures AtOrInside(k, a) && AtOrInside(k, b) && |a| < |b| ==> Inside(b, a)
  {
    if AtOrInside(k, a) && AtOrInside(k, b) && |a| < |b| {
      assert b[..|a|] == k[..|b|][..|a|];
    }
  }

  /** A location lies at or inside at most one entry of a directory. */
  lemma OneSiblingAbove(k: string, a: string, b: string)
    requires a != "" && b != "" && ParentLoc(a) == ParentLoc(b)
    requires AtOrInside(k, a) && AtOrInside(k, b)
    ensures a == b
  {
    SiblingNotInside(a, b);
    SiblingNotInside(b, a);
    LongerInside(k, a, b);
    LongerInside(k, b, a);
    assert a == k[..|a|] && b == k[..|b|];
  }

  /** Every directory above a node of the tree is a node of the tree. */
  lemma {:induction false} AncestorPresent(fs: Fs, k: string, c: string)
    requires WellFormed(fs) && k in fs.nodes
    ensures Inside(k, c) ==> c in fs.nodes && fs.nodes[c].DirNode?
    decreases |k|
  {
    if Inside(k, c) {
      ParentInside(k, c);
      AncestorPresent(fs, ParentLoc(k), c);
    }
  }

  /** Every node inside the directory l lies at or inside an entry of l. */
  lemma {:induction false} EntryAbove(fs: Fs, k: string, l: string) returns (c: string)
    requires WellFormed(fs) && k in fs.nodes
    ensures Inside(k, l) ==> c in fs.nodes && c != "" && ParentLoc(c) == l && AtOrInside(k, c)
    decreases |k|
  {
    c := k;
    if Inside(k, l) && ParentLoc(k) != l {
      ParentInside(k, l);
      var above := EntryAbove(fs, ParentLoc(k), l);
      EntryInside(k);
      if above != ParentLoc(k) {
        InsideTransitive(k, ParentLoc(k), above);
      }
      c := above;
    }
  }

  /** k is the location l or a directory above it. */
  predicate AtOrAbove(k: string, l: string) {
    k == l || Inside(l, k)
  }

  lemma AboveNotLonger(k: string, l: string)
    ensures AtOrAbove(k, l) ==> |k| <= |l|
  {
  }

  // ------------------------------------------------ the calls keep the tree

  /** Every node of fs is still in fs', unchanged. */
  ghost predicate Keeps(fs: Fs, fs': Fs) {
    forall k :: k in fs.nodes ==> k in fs'.nodes && fs'.nodes[k] == fs.nodes[k]
  }

  lemma FileHasNoChildren(fs: Fs, l: string)
    requires WellFormed(fs) && l in fs.nodes && fs.nodes[l].FileNode?
    ensures !HasChildren(fs, l)
  {
  }

  lemma TouchKeepsWellFormed(fs: Fs, p: string)
    requires WellFormed(fs)
    ensures WellFormed(Touch(fs, p).fs) && Keeps(fs, Touch(fs, p).fs)
  {
    if Resolve(p).Some? {
      var l := Resolve(p).value;
      if l !in fs.nodes && CanCreate(fs, l) {
        PutKeepsWellFormed(fs, l, FileNode([], true, true));
      }
    }
  }

  lemma FilePutContentsKeepsWellFormed(fs: Fs, p: string, data: seq<byte>, append: bool)
    requires WellFormed(fs)
    ensures WellFormed(FilePutContents(fs, p, data, append).fs)
  {
    if Resolve(p).Some? {
      var l := Resolve(p).value;
      if l in fs.nodes {
        var n := fs.nodes[l];
        if n.FileNode? && n.writable {
          PutKeepsWellFormed(fs, l, FileNode(if append then n.data + data else data, n.readable, true));
        }
      } else if CanCreate(fs, l) {
        PutKeepsWellFormed(fs, l, FileNode(data, true, true));
      }
    }
  }

  lemma UnlinkKeepsWellFormed(fs: Fs, p: string)
    requires WellFormed(fs)
    ensures WellFormed(Unlink(fs, p).fs)
  {
    var r := Unlink(fs, p);
    if r.ok {
      var l := Resolve(p).value;
      FileHasNoChildren(fs, l);
      RemoveKeepsWellFormed(fs, l);
    }
  }

  lemma RmdirKeepsWellFormed(fs: Fs, p: string)
    requires WellFormed(fs)
    ensures WellFormed(Rmdir(fs, p).fs)
  {
    var r := Rmdir(fs, p);
    if r.ok {
      RemoveKeepsWellFormed(fs, Resolve(p).value);
    }
  }

  lemma RenameKeepsWellFormed(fs: Fs, src: string, dst: string)
    requires WellFormed(fs)
    ensures WellFormed(Rename(fs, src, dst).fs)
  {
    if Resolve(src).Some? && Resolve(dst).Some? {
      var s, d := Resolve(src).value, Resolve(dst).value;
      if s != "" && s in fs.nodes && fs.nodes[s].FileNode? && WritableDir(fs, ParentLoc(s)) && d != s
        && d != "" && !(d in fs.nodes && fs.nodes[d].DirNode?) && WritableDir(fs, ParentLoc(d))
      {
        var fs1 := Put(fs, d, fs.nodes[s]);
        PutKeepsWellFormed(fs, d, fs.nodes[s]);
        FileHasNoChildren(fs1, s);
        RemoveKeepsWellFormed(fs1, s);
      }
    }
  }

  lemma CopyKeepsWellFormed(fs: Fs, src: string, dst: string)
    requires WellFormed(fs)
    ensures WellFormed(Copy(fs, src, dst).fs)
  {
    if GetContents(fs, src).Some? {
      FilePutContentsKeepsWellFormed(fs, dst, GetContents(fs, src).value, false);
    }
  }

  lemma {:induction false} PutDirsAppend(fs: Fs, ls: seq<string>, l: string)
    ensures PutDirs(fs, ls + [l]) == Put(PutDirs(fs, ls), l, DirNode(true, true))
    decreases |ls|
  {
    if ls != [] {
      assert (ls + [l])[1..] == ls[1..] + [l];
      PutDirsAppend(Put(fs, ls[0], DirNode(true, true)), ls[1..], l);
    }
  }

  /** Creating the missing chain down to l, from an existing directory, keeps
      the tree and every node, makes l a directory, and adds only readable
      and writable directories at l or above it. */
  lemma {:induction false} MkdirChain(fs: Fs, l: string)
    requires WellFormed(fs) && CanonicalLoc(l)
    requires NearestExisting(fs.nodes, l) in fs.nodes && fs.nodes[NearestExisting(fs.nodes, l)].DirNode?
    ensures var fs' := PutDirs(fs, MissingChain(fs.nodes, l));
      && WellFormed(fs') && Keeps(fs, fs')
      && l in fs'.nodes && fs'.nodes[l].DirNode?
      && (forall k :: k in fs'.nodes && k !in fs.nodes ==> fs'.nodes[k] == DirNode(true, true) && AtOrAbove(k, l))
    decreases |l|
  {
    if l != "" && l !in fs.nodes {
      var pl := ParentLoc(l);
      CanonicalParent(l);
      MkdirChain(fs, pl);
      var fs1 := PutDirs(fs, MissingChain(fs.nodes, pl));
      PutDirsAppend(fs, MissingChain(fs.nodes, pl), l);
      assert l !in fs1.nodes;
      PutKeepsWellFormed(fs1, l, DirNode(true, true));
      var fs' := Put(fs1, l, DirNode(true, true));
      EntryInside(l);
      forall k | k in fs'.nodes && k !in fs.nodes && k != l
        ensures fs'.nodes[k] == DirNode(true, true) && AtOrAbove(k, l)
      {
        assert k in fs1.nodes && fs'.nodes[k] == fs1.nodes[k];
        if k != pl {
          InsideTransitive(l, pl, k);
        }
      }
    }
  }

  /** mkdir keeps the tree; when it succeeds, the path is a directory, every
      node that was there is unchanged, and the only new nodes are directories
      on the way down to the path. */
  lemma MkdirEffect(fs: Fs, p: string)
    requires WellFormed(fs)
    ensures var r := Mkdir(fs, p);
      && WellFormed(r.fs) && Keeps(fs, r.fs)
      && (r.ok ==> Resolve(p).Some? && Resolve(p).value in r.fs.nodes && r.fs.nodes[Resolve(p).value].DirNode?)
      && (forall k :: k in r.fs.nodes && k !in fs.nodes ==> r.fs.nodes[k] == DirNode(true, true))
      && (forall k :: k in r.fs.nodes && k !in fs.nodes ==> Resolve(p).Some? && AtOrAbove(k, Resolve(p).value))
  {
    if Mkdir(fs, p).ok {
      MkdirChain(fs, Resolve(p).value);
    }
  }

  /** mkdir of a missing canonical location below a writable directory
      succeeds and leaves a writable directory there. */
  lemma MkdirCreates(fs: Fs, l: string)
    requires WellFormed(fs) && CanonicalLoc(l) && l !in fs.nodes
    requires WritableDir(fs, NearestExisting(fs.nodes, l))
    ensures Mkdir(fs, l + [Sep]).ok && WritableDir(Mkdir(fs, l + [Sep]).fs, l)
  {
    ResolveCanonical(l);
    assert Mkdir(fs, l + [Sep]) == Effect(true, PutDirs(fs, MissingChain(fs.nodes, l)));
    MkdirEffect(fs, l + [Sep]);
  }

  // ----------------------------------------------------------- the host

  /** The machine the library runs on: the filesystem every operation reads
      and changes, the library's own directory (where realPath anchors
      relative paths) and the name the host reports for its operating system. */
  class Host {
    var fs: Fs
    const libDir: string
    const osName: string

    ghost predicate Valid()
      reads this
    {
      WellFormed(fs) && ValidBase(libDir) && OsFamily(osName) == Unix
    }

    constructor (fs0: Fs, libDir: string, osName: string)
      requires WellFormed(fs0) && ValidBase(libDir) && OsFamily(osName) == Unix
      ensures Valid() && fs == fs0 && this.libDir == libDir && this.osName == osName
    {
      fs := fs0;
      this.libDir := libDir;
      this.osName := osName;
    }
  }
}
