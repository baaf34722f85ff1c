/** The string half of the library's path handling: getOS, getRoot, init,
    getName, getParent, isAbsolute, realPath, join and joinAsAbsolute of the
    Path base class, and realPath and isRoot of Dir. The model covers the
    Unix family, where the separator is '/'. */
module Paths {
  import opened Text
  import opened Errors

  /** What realPath accepts: one path string, or an array of segments. */
  datatype PathInput = Str(s: string) | Segments(parts: seq<string>)

  datatype OS = Unix | Win

  // ---------------------------------------------------------------- getOS

  /** getOS as written: Windows whenever the host's name contains "WIN",
      ignoring case. */
  function GetOS(osName: string): OS {
    if ContainsCI(osName, "WIN") then Win else Unix
  }

  lemma GetOSWinIff(osName: string)
    ensures GetOS(osName) == Win <==> exists i :: MatchesAtCI(osName, "WIN", i)
  {
    ContainsCIIff(osName, "WIN");
  }

  /** macOS reports "Darwin", which contains "win": getOS takes it for Windows. */
  lemma GetOSDarwin()
    ensures GetOS("Darwin") == Win
  {
    assert MatchesAtCI("Darwin", "WIN", 3);
    ContainsCIIff("Darwin", "WIN");
  }

  /** The detection the library evidently intends: Windows hosts report a name
      that begins with "WIN" (WINNT, WIN32, Windows); all others are Unix. */
  function OsFamily(osName: string): OS {
    if MatchesAtCI(osName, "WIN", 0) then Win else Unix
  }

  /** The corrected detection never calls a host Windows that getOS does not. */
  lemma OsFamilyRefinesGetOS(osName: string)
    ensures OsFamily(osName) == Win ==> GetOS(osName) == Win
  {
    GetOSWinIff(osName);
  }

  lemma OsFamilyExamples()
    ensures OsFamily("Darwin") == Unix
    ensures OsFamily("Linux") == Unix
    ensures OsFamily("WINNT") == Win
  {
    assert LowerStr("Dar") != LowerStr("WIN") by { assert LowerStr("Dar")[0] == 'd'; }
    assert LowerStr("Lin") != LowerStr("WIN") by { assert LowerStr("Lin")[0] == 'l'; }
    assert "WINNT"[0..3] == "WIN";
  }

  // ----------------------------------------------------------- isAbsolute

  /** isAbsolute on the Unix family: the path starts with the separator.
      The empty string has no first character and is relative. */
  predicate IsAbsolute(p: string) {
    |p| > 0 && p[0] == Sep
  }

  // ------------------------------------------------------------- realPath

  /** The string "/../" occurs in s at index i. */
  predicate BackLinkAt(s: string, i: int) {
    0 <= i && i + 4 <= |s| && s[i] == Sep && s[i + 1] == '.' && s[i + 2] == '.' && s[i + 3] == Sep
  }

  /** str_replace("/../", "", s): occurrences are deleted in one scan from the
      left, without overlap; ".." is never resolved against its parent. */
  function RemoveBackLinks(s: string): (r: string)
    ensures |r| <= |s|
    decreases |s|
  {
    if s == [] then []
    else if BackLinkAt(s, 0) then RemoveBackLinks(s[4..])
    else [s[0]] + RemoveBackLinks(s[1..])
  }

  /** preg_replace('~//+~', '/', s): every run of separators becomes one,
      and nothing else changes. */
  function CollapseSeps(s: string): (r: string)
    ensures NoDoubleSep(r)
    ensures |r| <= |s|
    ensures |s| > 0 ==> |r| > 0 && r[0] == s[0]
    ensures |s| > 0 && s[|s| - 1] == Sep ==> |r| > 0 && r[|r| - 1] == Sep
    decreases |s|
  {
    if |s| < 2 then s
    else if s[0] == Sep && s[1] == Sep then CollapseSeps(s[1..])
    else [s[0]] + CollapseSeps(s[1..])
  }

  function Flatten(input: PathInput): string {
    match input
    case Str(s) => s
    case Segments(parts) => Implode(parts, Sep)
  }

  /** A relative path is taken relative to base, the library's own directory. */
  function Absolutize(p: string, base: string): string {
    if IsAbsolute(p) then p else base + [Sep] + p
  }

  lemma NoDoubleSepPrefix(s: string, n: nat)
    requires NoDoubleSep(s) && n <= |s|
    ensures NoDoubleSep(s[..n])
  {
    forall i | 0 <= i < n - 1
      ensures !(s[..n][i] == Sep && s[..n][i + 1] == Sep)
    {
      assert s[..n][i] == s[i] && s[..n][i + 1] == s[i + 1];
    }
  }

  /** What realPath does once the path is absolute: drop back links, collapse
      separator runs, strip trailing separators. */
  function Clean(p: string): (r: string)
    ensures NoTrailingSep(r) && NoDoubleSep(r)
  {
    var c := CollapseSeps(RemoveBackLinks(p + [Sep]));
    NoDoubleSepPrefix(c, |RTrim(c)|);
    RTrim(c)
  }

  /** Path::realPath: never a trailing separator, never two in a row. */
  function RealPath(input: PathInput, base: string): (r: string)
    ensures NoTrailingSep(r) && NoDoubleSep(r)
  {
    Clean(Absolutize(Flatten(input), base))
  }

  /** What a Dir handle's path always looks like: exactly one trailing separator. */
  type DirPath = s: string | |s| > 0 && s[|s| - 1] == Sep && NoDoubleSep(s) witness "/"

  /** Dir::realPath: the path realPath gives, plus one separator. */
  function DirRealPath(input: PathInput, base: string): (r: DirPath)
    ensures r[..|r| - 1] == RealPath(input, base)
  {
    var p := RealPath(input, base);
    assert NoDoubleSep(p + [Sep]) by {
      forall i | 0 <= i < |p|
        ensures !((p + [Sep])[i] == Sep && (p + [Sep])[i + 1] == Sep)
      {
        if i + 1 < |p| {
          assert (p + [Sep])[i] == p[i] && (p + [Sep])[i + 1] == p[i + 1];
        }
      }
    }
    p + [Sep]
  }

  /** The Dir path of a canonical location: the location and one separator. */
  function DirOf(l: string): (d: DirPath)
    requires CanonicalLoc(l)
    ensures d == l + [Sep]
  {
    var t := l + [Sep];
    assert NoDoubleSep(t) by {
      forall i | 0 <= i < |t| - 1
        ensures !(t[i] == Sep && t[i + 1] == Sep)
      {
        if i + 1 < |l| {
          assert t[i] == l[i] && t[i + 1] == l[i + 1];
        }
      }
    }
    t
  }

  /** Dir::isRoot on the Unix family. */
  predicate IsRoot(d: DirPath) {
    d == [Sep]
  }

  lemma RealPathSegments(parts: seq<string>, base: string)
    ensures RealPath(Segments(parts), base) == RealPath(Str(Implode(parts, Sep)), base)
  {
  }

  /** The separator alone is the root: realPath turns it into "". */
  lemma RootPath(base: string)
    ensures RealPath(Str([Sep]), base) == ""
    ensures DirRealPath(Str([Sep]), base) == [Sep]
    ensures IsRoot(DirRealPath(Str([Sep]), base))
  {
    assert !BackLinkAt([Sep, Sep], 0);
    assert RemoveBackLinks([Sep, Sep]) == [Sep, Sep];
    assert CollapseSeps([Sep, Sep]) == [Sep];
  }

  // ------------------------------------------------- canonical locations

  /** s[j..] begins with a segment "." or "..". */
  predicate DotSegmentAt(s: string, j: int) {
    && 0 <= j < |s| && s[j] == '.'
    && (j + 1 == |s| || s[j + 1] == Sep || (s[j + 1] == '.' && (j + 2 == |s| || s[j + 2] == Sep)))
  }

  predicate NoDotSegment(s: string) {
    forall i :: 0 <= i < |s| && s[i] == Sep ==> !DotSegmentAt(s, i + 1)
  }

  /** How the filesystem names a node: "" for the root, otherwise a separator
      before each of one or more non-empty segments, none of them "." or "..". */
  predicate CanonicalLoc(l: string) {
    l == "" || (l[0] == Sep && NoDoubleSep(l) && NoTrailingSep(l) && NoDotSegment(l))
  }

  lemma {:induction false} RemoveBackLinksIdentity(s: string)
    requires forall i :: !BackLinkAt(s, i)
    ensures RemoveBackLinks(s) == s
    decreases |s|
  {
    if s != [] {
      assert !BackLinkAt(s, 0);
      forall i ensures !BackLinkAt(s[1..], i) {
        assert !BackLinkAt(s, i + 1);
      }
      RemoveBackLinksIdentity(s[1..]);
    }
  }

  lemma {:induction false} CollapseSepsIdentity(s: string)
    requires NoDoubleSep(s)
    ensures CollapseSeps(s) == s
    decreases |s|
  {
    if |s| >= 2 {
      assert !(s[0] == Sep && s[1] == Sep);
      forall i | 0 <= i < |s[1..]| - 1
        ensures !(s[1..][i] == Sep && s[1..][i + 1] == Sep)
      {
        assert s[1..][i] == s[i + 1] && s[1..][i + 1] == s[i + 2];
      }
      CollapseSepsIdentity(s[1..]);
    }
  }

  /** realPath leaves a canonical location as it is. */
  lemma CleanCanonical(c: string)
    requires CanonicalLoc(c) && c != ""
    ensures Clean(c) == c
  {
    var t := c + [Sep];
    RemoveBackLinksIdentity(t);
    forall i | 0 <= i < |t| - 1
      ensures !(t[i] == Sep && t[i + 1] == Sep)
    {
      if i + 1 < |c| {
        assert t[i] == c[i] && t[i + 1] == c[i + 1];
      }
    }
    CollapseSepsIdentity(t);
    assert t[..|t| - 1] == c;
  }

  lemma RealPathCanonical(c: string, base: string)
    requires CanonicalLoc(c) && c != ""
    ensures RealPath(Str(c), base) == c
    ensures DirRealPath(Str(c), base) == c + [Sep]
  {
    CleanCanonical(c);
  }

  /** Back links are deleted, not resolved: "/a/../b" becomes "/ab". */
  lemma BackLinkDeleted(base: string)
    ensures RealPath(Str("/a/../b"), base) == "/ab"
  {
    assert Absolutize("/a/../b", base) == "/a/../b";
    CleanDeletes();
  }

  lemma CleanDeletes()
    ensures Clean("/a/../b") == "/ab"
  {
    assert "/a/../b" + [Sep] == "/a/../b/";
    BackLinkRemoved();
    DeletedKept();
  }

  lemma BackLinkRemoved()
    ensures RemoveBackLinks("/a/../b/") == "/ab/"
  {
    assert "/../b/"[4..] == "b/";
    assert "b/"[1..] == "/" && "/"[1..] == "";
    assert "a/../b/"[1..] == "/../b/";
    assert "/a/../b/"[1..] == "a/../b/";
  }

  lemma DeletedKept()
    ensures CollapseSeps("/ab/") == "/ab/"
    ensures RTrim("/ab/") == "/ab"
  {
    CollapseSepsIdentity("/ab/");
    assert "/ab/"[..3] == "/ab";
  }

  /** An absolute path can come out relative: "/../x" becomes "x". */
  lemma RealPathMayBeRelative(base: string)
    ensures RealPath(Str("/../x"), base) == "x"
  {
    assert Absolutize("/../x", base) == "/../x";
    assert "/../x" + [Sep] == "/../x/";
    RemoveBackLinksIdentity("x/");
    assert "/../x/"[4..] == "x/";
    assert RemoveBackLinks("/../x/") == "x/";
    CollapseSepsIdentity("x/");
    assert "x/"[..1] == "x";
  }

  /** The one scan of str_replace deletes "/../" at index 2 of "/./.././x/"
      and leaves the "/../" that the deletion assembles. */
  lemma BackLinkAssembled()
    ensures RemoveBackLinks("/./.././x/") == "/../x/"
  {
    var s := "/./.././x/";
    assert !BackLinkAt(s, 0) && s[1..] == "./.././x/";
    FirstKept(s);
    LeadingDotKept();
  }

  /** Without a back link at its head, the first character survives the scan. */
  lemma FirstKept(s: string)
    requires |s| > 0 && !BackLinkAt(s, 0)
    ensures RemoveBackLinks(s) == [s[0]] + RemoveBackLinks(s[1..])
  {
  }

  lemma LeadingDotKept()
    ensures RemoveBackLinks("./.././x/") == "../x/"
  {
    var s := "./.././x/";
    assert !BackLinkAt(s, 0) && s[1..] == "/.././x/";
    FirstKept(s);
    TailKept();
  }

  lemma TailKept()
    ensures RemoveBackLinks("/.././x/") == "./x/"
  {
    assert "/.././x/"[4..] == "./x/";
    assert "./x/"[1..] == "/x/" && "/x/"[1..] == "x/" && "x/"[1..] == "/" && "/"[1..] == "";
  }

  /** realPath is not idempotent: the deletion can assemble a new back link. */
  lemma RealPathNotIdempotent(base: string)
    ensures RealPath(Str("/./.././x"), base) == "/../x"
    ensures RealPath(Str("/../x"), base) == "x"
  {
    assert Absolutize("/./.././x", base) == "/./.././x";
    CleanAssembled();
    RealPathMayBeRelative(base);
  }

  lemma CleanAssembled()
    ensures Clean("/./.././x") == "/../x"
  {
    assert "/./.././x" + [Sep] == "/./.././x/";
    BackLinkAssembled();
    AssembledKept();
  }

  lemma AssembledKept()
    ensures CollapseSeps("/../x/") == "/../x/"
    ensures RTrim("/../x/") == "/../x"
  {
    CollapseSepsIdentity("/../x/");
    AssembledTrimmed();
  }

  lemma AssembledTrimmed()
    ensures RTrim("/../x/") == "/../x"
  {
    assert "/../x/"[..5] == "/../x";
    assert RTrim("/../x/") == RTrim("/../x");
  }

  // ------------------------------------------------ length and head of realPath

  lemma {:induction false} RemoveBackLinksEnd(s: string)
    requires |s| > 0 && s[|s| - 1] == Sep
    ensures var r := RemoveBackLinks(s); (|r| > 0 && r[|r| - 1] == Sep) || |r| + 4 <= |s|
    decreases |s|
  {
    if BackLinkAt(s, 0) {
      if |s| > 4 {
        RemoveBackLinksEnd(s[4..]);
      }
    } else if |s| > 1 {
      RemoveBackLinksEnd(s[1..]);
    }
  }

  /** The clean-up never makes a path longer. */
  lemma CleanLength(p: string)
    ensures |Clean(p)| <= |p|
  {
    var x := RemoveBackLinks(p + [Sep]);
    RemoveBackLinksEnd(p + [Sep]);
    var y := CollapseSeps(x);
    if |x| > 0 && x[|x| - 1] == Sep {
      assert |RTrim(y)| < |y|;
    }
  }

  /** A path whose first two characters are a separator and a name character. */
  predicate Anchored(q: string) {
    |q| >= 2 && q[0] == Sep && q[1] != Sep && q[1] != '.'
  }

  /** The clean-up keeps the first two characters of an anchored path. */
  lemma CleanKeepsHead(p: string)
    requires Anchored(p)
    ensures Anchored(Clean(p)) && Clean(p)[..2] == p[..2]
  {
    var s := p + [Sep];
    assert !BackLinkAt(s, 0) && !BackLinkAt(s[1..], 0);
    var x := RemoveBackLinks(s);
    var s1 := s[1..];
    assert s1 != [] && s1[0] == p[1];
    assert RemoveBackLinks(s1) == [s1[0]] + RemoveBackLinks(s1[1..]);
    assert x == [s[0]] + RemoveBackLinks(s1);
    assert x[0] == Sep && x[1] == p[1];
    var y := CollapseSeps(x);
    assert y == [x[0]] + CollapseSeps(x[1..]);
    assert y[0] == Sep && y[1] == p[1];
    var r := RTrim(y);
    assert |r| >= 2;
    assert r[0] == y[0] && r[1] == y[1];
  }

  // ------------------------------------------------------ dirname, basename

  /** dirname(p). */
  function Dirname(p: string): string {
    if p == "" then ""
    else
      var t := RTrim(p);
      if t == "" then [Sep]
      else
        var k := LastIndex(t, Sep);
        if k < 0 then "."
        else
          var h := RTrim(t[..k]);
          if h == "" then [Sep] else h
  }

  /** basename(p): the last segment; trailing separators do not count. */
  function Basename(p: string): (r: string)
    ensures Sep !in r
  {
    var t := RTrim(p);
    var k := LastIndex(t, Sep);
    t[k + 1..]
  }

  /** The directory part of an absolute path is absolute and, unless it is the
      separator alone, shorter than the path without its trailing separators. */
  lemma DirnameOfAbsolute(p: string)
    requires IsAbsolute(p)
    ensures IsAbsolute(Dirname(p))
    ensures Dirname(p) == [Sep] || |Dirname(p)| < |RTrim(p)|
  {
    var t := RTrim(p);
    if t != "" {
      assert t[0] == Sep;
      var k := LastIndex(t, Sep);
      assert k >= 0;
      var h := RTrim(t[..k]);
      if h != "" {
        assert h[0] == t[..k][0] == Sep;
      }
    }
  }

  /** The directory part of an anchored path is the root or anchored with the same head. */
  lemma DirnameOfAnchored(p: string)
    requires Anchored(p)
    ensures Dirname(p) == [Sep] || (Anchored(Dirname(p)) && Dirname(p)[..2] == p[..2])
  {
    var t := RTrim(p);
    assert |t| >= 2 && t[0] == p[0] && t[1] == p[1];
    var k := LastIndex(t, Sep);
    assert k != 1;
    if k >= 2 {
      var u := t[..k];
      assert u[0] == p[0] && u[1] == p[1];
      var h := RTrim(u);
      assert |h| >= 2;
      assert h[0] == u[0] && h[1] == u[1];
    }
  }

  /** The directory part of a relative path is relative and non-empty. */
  lemma DirnameOfRelative(p: string)
    requires p != "" && !IsAbsolute(p)
    ensures Dirname(p) != "" && !IsAbsolute(Dirname(p))
  {
    var t := RTrim(p);
    assert |t| >= 1 && t[0] == p[0];
    var k := LastIndex(t, Sep);
    if k >= 0 {
      assert k >= 1;
      var u := t[..k];
      assert u[0] == p[0];
      var h := RTrim(u);
      assert |h| >= 1 && h[0] == u[0];
    }
  }

  // ----------------------------------------------------------- getParent

  /** The Dir that getParent builds: the directory part, through Dir::realPath. */
  function ParentDirPath(path: string, base: string): DirPath {
    DirRealPath(Str(Dirname(path)), base)
  }

  /** getParent on a Dir handle: none for the filesystem root. */
  function DirParent(d: DirPath, base: string): Option<DirPath> {
    if IsRoot(d) then None else Some(ParentDirPath(d, base))
  }

  /** realPath's base, the library's own directory: a canonical location
      whose first segment does not begin with a dot. */
  predicate ValidBase(base: string) {
    CanonicalLoc(base) && Anchored(base)
  }

  /** The measure the ancestor walk of Dir::isWritable decreases. */
  function WalkRank(q: string): nat {
    if q == [Sep] || Anchored(q) then 0 else if !IsAbsolute(q) then 1 else 2
  }

  lemma ParentOfRelativeIsAnchored(q: DirPath, base: string)
    requires ValidBase(base) && !IsAbsolute(q)
    ensures Anchored(ParentDirPath(q, base))
  {
    var d := Dirname(q);
    DirnameOfRelative(q);
    var a := Absolutize(d, base);
    assert a == base + [Sep] + d;
    assert a[0] == base[0] && a[1] == base[1];
    CleanKeepsHead(a);
    var p := ParentDirPath(q, base);
    assert p[..|p| - 1] == Clean(a);
    assert p[0] == Clean(a)[0] && p[1] == Clean(a)[1];
  }

  lemma ParentOfAbsolute(q: DirPath, base: string)
    requires IsAbsolute(q) && !IsRoot(q)
    ensures var p := ParentDirPath(q, base); p == [Sep] || |p| < |q|
    ensures Anchored(q) ==> var p := ParentDirPath(q, base); p == [Sep] || Anchored(p)
  {
    var d := Dirname(q);
    var p := ParentDirPath(q, base);
    assert |RTrim(q)| < |q|;
    DirnameOfAbsolute(q);
    if d == [Sep] {
      RootPath(base);
    } else {
      CleanLength(d);
      assert |p| < |q|;
      if Anchored(q) {
        DirnameOfAnchored(q);
        CleanKeepsHead(d);
        assert p[..|p| - 1] == Clean(d);
        assert p[0] == Clean(d)[0] && p[1] == Clean(d)[1];
      }
    }
  }

  /** Each step of the walk goes to a lower rank, or to a shorter path of the same rank. */
  lemma ParentDirPathDecreases(q: DirPath, base: string)
    requires ValidBase(base) && !IsRoot(q)
    ensures var p := ParentDirPath(q, base);
      WalkRank(p) < WalkRank(q) || (WalkRank(p) == WalkRank(q) && |p| < |q|)
  {
    if !IsAbsolute(q) {
      ParentOfRelativeIsAnchored(q, base);
    } else {
      ParentOfAbsolute(q, base);
    }
  }

  // ---------------------------------------------- locations and their parents

  /** The location of the directory holding l. */
  function ParentLoc(l: string): (r: string)
    ensures l != "" ==> |r| < |l|
  {
    var k := LastIndex(l, Sep);
    if k < 0 then "" else l[..k]
  }

  /** The name l has inside its directory. */
  function NameOf(l: string): string {
    l[LastIndex(l, Sep) + 1..]
  }

  lemma DotSegmentInPrefix(l: string, k: nat, j: int)
    requires k < |l| && l[k] == Sep && DotSegmentAt(l[..k], j)
    ensures DotSegmentAt(l, j)
  {
  }

  /** A canonical location splits into its parent's location, a separator and a
      non-empty name; the parent is canonical and shorter. */
  lemma CanonicalParent(l: string)
    requires CanonicalLoc(l) && l != ""
    ensures CanonicalLoc(ParentLoc(l)) && |ParentLoc(l)| < |l|
    ensures l == ParentLoc(l) + [Sep] + NameOf(l)
    ensures NameOf(l) != "" && Sep !in NameOf(l)
  {
    var k := LastIndex(l, Sep);
    assert k >= 0;
    var pl := l[..k];
    if k > 0 {
      NoDoubleSepPrefix(l, k);
      assert l[k - 1] != Sep;
      forall i | 0 <= i < |pl| && pl[i] == Sep
        ensures !DotSegmentAt(pl, i + 1)
      {
        if DotSegmentAt(pl, i + 1) {
          DotSegmentInPrefix(l, k, i + 1);
        }
      }
    }
    assert l == l[..k] + [Sep] + l[k + 1..];
  }

  /** On a canonical location, getParent of a File, and of the Dir with that
      location, is the parent location with one separator; getName is its name. */
  lemma ParentOfCanonical(l: string, base: string)
    requires CanonicalLoc(l) && l != ""
    ensures ParentDirPath(l, base) == ParentLoc(l) + [Sep]
    ensures DirParent(DirOf(l), base).Some? && DirParent(DirOf(l), base).value == ParentLoc(l) + [Sep]
    ensures Basename(l) == NameOf(l) && Basename(l + [Sep]) == NameOf(l)
  {
    DirnameOfCanonical(l);
    ParentDirPathCanonical(l, base);
  }

  lemma ParentDirPathCanonical(l: string, base: string)
    requires CanonicalLoc(l) && l != ""
    ensures ParentDirPath(l, base) == ParentLoc(l) + [Sep]
    ensures ParentDirPath(l + [Sep], base) == ParentLoc(l) + [Sep]
  {
    DirnameOfCanonical(l);
    CanonicalParent(l);
    var pl := ParentLoc(l);
    ParentDirPathFrom(l, base, pl);
    ParentDirPathFrom(l + [Sep], base, pl);
  }

  /** getParent of a path whose dirname is the canonical location c (the
      root when c is empty) is c with one separator. */
  lemma ParentDirPathFrom(path: string, base: string, c: string)
    requires CanonicalLoc(c) && Dirname(path) == if c == "" then [Sep] else c
    ensures ParentDirPath(path, base) == c + [Sep]
  {
    if c == "" {
      RootPath(base);
    } else {
      RealPathCanonical(c, base);
    }
  }

  /** dirname and basename of a canonical location, with or without a
      trailing separator: its parent's location and its name. */
  lemma DirnameOfCanonical(l: string)
    requires CanonicalLoc(l) && l != ""
    ensures Dirname(l) == Dirname(l + [Sep])
    ensures Dirname(l) == if ParentLoc(l) == "" then [Sep] else ParentLoc(l)
    ensures Basename(l) == NameOf(l) && Basename(l + [Sep]) == NameOf(l)
  {
    CanonicalParent(l);
    var pl := ParentLoc(l);
    assert RTrim(l + [Sep]) == l by {
      assert (l + [Sep])[..|l|] == l;
    }
    assert RTrim(pl) == pl;
  }

  // ----------------------------------------------------------- pathinfo

  datatype NameParts = NameParts(basename: string, filename: string, extension: Option<string>)

  /** pathinfo(p): the basename, the basename up to its last dot, and the part
      after that dot, which is absent when there is no dot and may be empty. */
  function PathInfo(p: string): NameParts {
    var b := Basename(p);
    var k := LastIndex(b, '.');
    if k < 0 then NameParts(b, b, None) else NameParts(b, b[..k], Some(b[k + 1..]))
  }

  /** The parts pathinfo returns: the basename; no extension exactly when the
      basename has no dot, and then the filename is the whole basename;
      otherwise filename, a dot and an extension without dots make the basename. */
  lemma PathInfoParts(p: string)
    ensures var r := PathInfo(p);
      && r.basename == Basename(p)
      && (r.extension.None? <==> '.' !in r.basename)
      && (r.extension.None? ==> r.filename == r.basename)
      && (r.extension.Some? ==>
            r.basename == r.filename + "." + r.extension.value && '.' !in r.extension.value)
  {
    var b := Basename(p);
    var k := LastIndex(b, '.');
    if k >= 0 {
      assert b == b[..k] + "." + b[k + 1..];
    }
  }

  /** With its last separator at k and the last dot after it at d, a path's
      parts are the name after k, split at d. */
  lemma PathInfoAt(p: string, k: nat, d: nat)
    requires NoTrailingSep(p) && k < d < |p|
    requires p[k] == Sep && Sep !in p[k + 1..]
    requires p[d] == '.' && '.' !in p[d + 1..]
    ensures PathInfo(p) == NameParts(p[k + 1..], p[k + 1..d], Some(p[d + 1..]))
  {
    BasenameAt(p, k);
    var b := p[k + 1..];
    assert b[d - k - 1] == '.' && b[d - k..] == p[d + 1..];
    LastIndexAt(b, '.', d - k - 1);
    assert b[..d - k - 1] == p[k + 1..d];
  }

  /** With its last separator at k, a path's basename is what follows k. */
  lemma BasenameAt(p: string, k: nat)
    requires NoTrailingSep(p) && k < |p| && p[k] == Sep && Sep !in p[k + 1..]
    ensures Basename(p) == p[k + 1..]
  {
    assert RTrim(p) == p;
    LastIndexAt(p, Sep, k);
  }

  lemma PathInfoWithExtension()
    ensures PathInfo("/tmp/favicon.png") == NameParts("favicon.png", "favicon", Some("png"))
  {
    FaviconShape();
    PathInfoAt("/tmp/favicon.png", 4, 12);
  }

  /** Where the separator and the dot sit in "/tmp/favicon.png". */
  lemma FaviconShape()
    ensures var p := "/tmp/favicon.png";
      && NoTrailingSep(p) && p[4] == Sep && p[12] == '.'
      && Sep !in p[5..] && '.' !in p[13..]
      && p[5..] == "favicon.png" && p[5..12] == "favicon" && p[13..] == "png"
  {
    var p := "/tmp/favicon.png";
    assert p[5..] == "favicon.png";
    assert p[13..] == "png";
  }

  /** A leading dot starts the extension: ".empty" has an empty filename. */
  lemma PathInfoOfDotFile()
    ensures PathInfo("/tmp/.empty") == NameParts(".empty", "", Some("empty"))
  {
    DotFileShape();
    PathInfoAt("/tmp/.empty", 4, 5);
  }

  /** Where the separator and the dot sit in "/tmp/.empty". */
  lemma DotFileShape()
    ensures var p := "/tmp/.empty";
      && NoTrailingSep(p) && p[4] == Sep && p[5] == '.'
      && Sep !in p[5..] && '.' !in p[6..]
      && p[5..] == ".empty" && p[5..5] == "" && p[6..] == "empty"
  {
    var p := "/tmp/.empty";
    assert p[5..] == ".empty";
    assert p[6..] == "empty";
  }

  // ------------------------------------------------ getRoot, join, joinAsAbsolute

  /** What getRoot builds from the path of the library's own file: the Dir of
      everything up to and including the first separator, or none without one. */
  function RootOf(file: string, base: string): Option<DirPath> {
    var k := FirstIndex(file, Sep);
    if k < |file| then Some(DirRealPath(Str(file[..k + 1]), base)) else None
  }

  /** On the Unix family the library's own file has an absolute path, so its root is the separator. */
  lemma RootOfAbsolute(file: string, base: string)
    requires IsAbsolute(file)
    ensures RootOf(file, base).Some? && RootOf(file, base).value == [Sep]
  {
    assert FirstIndex(file, Sep) == 0;
    assert file[..1] == [Sep];
    RootPath(base);
  }

  /** Path::getRoot, reading the file path character by character. */
  method GetRoot(file: string, base: string) returns (root: Option<DirPath>)
    ensures root == RootOf(file, base)
  {
    var acc := "";
    for i := 0 to |file|
      invariant acc == file[..i]
      invariant forall j :: 0 <= j < i ==> file[j] != Sep
    {
      acc := acc + [file[i]];
      if file[i] == Sep {
        FirstIndexAt(file, Sep, i);
        assert acc == file[..i + 1];
        root := Some(DirRealPath(Str(acc), base));
        return;
      }
    }
    return None;
  }

  /** Path::join: the segments imploded, separators trimmed from both ends only. */
  function Join(parts: seq<string>): (r: string)
    ensures |r| == 0 || (r[0] != Sep && r[|r| - 1] != Sep)
  {
    Trim(Implode(parts, Sep))
  }

  /** Only the ends are trimmed: separators inside are kept as they are. */
  lemma JoinKeepsInnerSeparators()
    ensures Join(["/a/", "b/"]) == "a//b"
  {
    ImplodeTwo();
    RTrimOne();
    LTrimOne();
  }

  lemma ImplodeTwo()
    ensures Implode(["/a/", "b/"], Sep) == "/a//b/"
  {
    assert ["/a/", "b/"][1..] == ["b/"];
  }

  lemma RTrimOne()
    ensures RTrim("/a//b/") == "/a//b"
  {
    RTrimOneSep("/a//b/");
    assert "/a//b/"[..5] == "/a//b";
  }

  lemma LTrimOne()
    ensures LTrim("/a//b") == "a//b"
  {
    LTrimOneSep("/a//b");
    assert "/a//b"[1..] == "a//b";
  }

  /** Path::joinAsAbsolute: the root Dir's path, then the imploded segments. */
  method JoinAsAbsolute(file: string, base: string, parts: seq<string>) returns (r: string)
    ensures r == (match RootOf(file, base) case Some(d) => d case None => "") + Implode(parts, Sep)
    ensures IsAbsolute(file) ==> r == [Sep] + Implode(parts, Sep)
  {
    var root := GetRoot(file, base);
    if IsAbsolute(file) {
      RootOfAbsolute(file, base);
    }
    match root
    case Some(d) => r := d + Implode(parts, Sep);
    case None => r := Implode(parts, Sep);
  }
}
