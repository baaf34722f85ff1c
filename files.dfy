/** File, the handle on a file: a path fixed by init, a cache of the name
    parts that load fills lazily, and the operations that read and change
    the host's filesystem through the handle. Each operation is stated first
    as a function of the filesystem, then performed by a method of the
    class. */
module Files {
  import opened Text
  import opened Errors
  import opened Paths
  import Os
  import Dirs

  // --------------------------------------------------------------- queries

  /** assertIsFile on a File handle: fails when something other than a file
      is at the path, never for a missing path. */
  function FileAssert(fs: Os.Fs, p: string): Outcome {
    if Os.PathExists(fs, p) && !Os.IsFile(fs, p) then Fail(NotAFile(p)) else Pass
  }

  /** File::exists */
  function FileExists(fs: Os.Fs, p: string): Result<bool> {
    if FileAssert(fs, p).Fail? then Err(NotAFile(p)) else Ok(Os.IsFile(fs, p))
  }

  /** File::isReadable */
  function FileReadable(fs: Os.Fs, p: string): Result<bool> {
    if FileAssert(fs, p).Fail? then Err(NotAFile(p)) else Ok(Os.IsReadable(fs, p))
  }

  /** getParent on a File handle: the Dir of dirname(path). */
  function ParentDir(p: string, base: string): Dirs.Dir {
    Dirs.NewDir(Str(Dirname(p)), base)
  }

  /** File::isWritable: writable on disk, or missing with a writable parent
      directory, as Dir::isWritable finds it. */
  function FileWritable(fs: Os.Fs, base: string, p: string): Result<bool>
    requires ValidBase(base)
  {
    if FileAssert(fs, p).Fail? then Err(NotAFile(p))
    else if Os.IsWritable(fs, p) then Ok(true)
    else if Os.IsFile(fs, p) then Ok(false)
    else Dirs.WalkWritable(fs, base, ParentDir(p, base).path)
  }

  /** File::read: the bytes of a readable file at the path; NotAFile when
      something else is there, PathNotReadable otherwise. */
  function ReadOn(fs: Os.Fs, p: string): (r: Result<seq<Os.byte>>)
    ensures r.Ok? <==> Os.IsFile(fs, p) && Os.IsReadable(fs, p)
    ensures r.Ok? ==> Os.GetContents(fs, p) == Some(r.value)
    ensures r.Err? ==> r.error == if Os.PathExists(fs, p) && !Os.IsFile(fs, p) then NotAFile(p) else PathNotReadable(p)
  {
    match FileReadable(fs, p)
    case Err(e) => Err(e)
    case Ok(readable) =>
      if !readable then Err(PathNotReadable(p))
      else
        match Os.GetContents(fs, p)
        case None => Err(PathNotReadable(p))
        case Some(data) => Ok(data)
  }

  /** assertIsFile on either kind of handle: a Dir handle is never a file. */
  function AssertIsFile(fs: Os.Fs, h: Dirs.Entry): Outcome {
    match h
    case DirEntry(d) => Fail(NotAFile(d.path))
    case FileEntry(p) => FileAssert(fs, p)
  }

  /** assertIsDir on either kind of handle: a File handle is never a directory. */
  function AssertIsDir(fs: Os.Fs, h: Dirs.Entry): Outcome {
    match h
    case FileEntry(p) => Fail(NotADirectory(p))
    case DirEntry(d) => Dirs.AssertIsDir(fs, d)
  }

  // ------------------------------------------------------------------ MIME

  /** The correction parseMimeType applies to what the content sniffer
      reports: a bare "image/svg" becomes "image/svg+xml". */
  function FixMime(m: string): string {
    if m == "image/svg" then "image/svg+xml" else m
  }

  /** parseMimeType: the sniffer's answer, corrected, when the host has a
      sniffer; otherwise what the extension table gives for the path. */
  function ParseMimeType(p: string, sniffer: Option<string -> string>, mimeForPath: string -> string): string {
    match sniffer
    case Some(sniff) => FixMime(sniff(p))
    case None => mimeForPath(p)
  }

  /** strtolower of an extension that may be null; null lower-cases to "". */
  function LowerExt(e: Option<string>): string {
    match e
    case None => ""
    case Some(s) => LowerStr(s)
  }

  /** validateMimeExtension: the extension the table gives for the MIME type,
      except that a file named .svg whose content maps to html keeps its own
      extension. */
  function ValidateMimeExtension(mimeType: string, extension: Option<string>,
                                 extensionFor: string -> Option<string>): (r: Option<string>)
    ensures r == extensionFor(mimeType) || (r == extension && LowerExt(extension) == "svg")
  {
    var mimeExtension := extensionFor(mimeType);
    if LowerExt(extension) == "svg" && LowerExt(mimeExtension) == "html" then extension else mimeExtension
  }

  /** The corrected type is never the bare "image/svg", and correcting twice
      changes nothing more. */
  lemma FixMimeSettles(m: string)
    ensures FixMime(m) != "image/svg"
    ensures FixMime(FixMime(m)) == FixMime(m)
  {
    assert "image/svg+xml" != "image/svg" by { assert |"image/svg+xml"| != |"image/svg"|; }
  }

  /** The name's extension wins in the svg-sniffed-as-html case, whatever
      the case of either extension; in every other case the table's wins. */
  lemma ValidateKeepsSvg(mimeType: string, extension: Option<string>, extensionFor: string -> Option<string>)
    ensures LowerExt(extension) == "svg" && LowerExt(extensionFor(mimeType)) == "html" ==>
      ValidateMimeExtension(mimeType, extension, extensionFor) == extension
    ensures !(LowerExt(extension) == "svg" && LowerExt(extensionFor(mimeType)) == "html") ==>
      ValidateMimeExtension(mimeType, extension, extensionFor) == extensionFor(mimeType)
    ensures LowerExt(extension) == "svg" ==>
      LowerExt(ValidateMimeExtension(mimeType, extension, extensionFor)) != "html"
  {
    assert "svg" != "html";
  }

  /** "logo.SVG" whose content the table maps to html keeps "SVG"; a .png
      file gets whatever the table says. */
  lemma ValidateExamples(extensionFor: string -> Option<string>)
    requires extensionFor("text/html") == Some("html")
    ensures ValidateMimeExtension("text/html", Some("SVG"), extensionFor) == Some("SVG")
    ensures ValidateMimeExtension("text/html", Some("png"), extensionFor) == Some("html")
  {
    assert LowerStr("SVG") == "svg";
    assert LowerStr("html") == "html";
    assert LowerStr("png") != "svg" by { assert LowerStr("png")[0] == 'p'; }
  }

  // -------------------------------------------------------- state changes

  /** File::touch: checks that the file is writable, touches the parent
      directory (a NotADirectory from it is swallowed), then touches the
      file. */
  function TouchOn(fs: Os.Fs, base: string, p: string): Dirs.Change
    requires ValidBase(base)
  {
    if FileAssert(fs, p).Fail? then Dirs.Change(Fail(NotAFile(p)), fs)
    else
      match FileWritable(fs, base, p)
      case Err(e) => Dirs.Change(Fail(e), fs)
      case Ok(writable) =>
        if !writable then Dirs.Change(Fail(PathNotWritable(p)), fs)
        else
          var c := Dirs.TouchOn(fs, base, ParentDir(p, base));
          if c.outcome.Fail? && !c.outcome.error.NotADirectory? then c
          else
            var t := Os.Touch(c.fs, p);
            if t.ok then Dirs.Change(Pass, t.fs) else Dirs.Change(Fail(PathNotWritable(p)), c.fs)
  }

  /** File::putContents, behind write (append false) and append (append true). */
  function PutOn(fs: Os.Fs, base: string, p: string, data: seq<Os.byte>, append: bool): Dirs.Change
    requires ValidBase(base)
  {
    var t := TouchOn(fs, base, p);
    if t.outcome.Fail? then t
    else
      match FileWritable(t.fs, base, p)
      case Err(e) => Dirs.Change(Fail(e), t.fs)
      case Ok(writable) =>
        if !writable then Dirs.Change(Fail(PathNotWritable(p)), t.fs)
        else
          var w := Os.FilePutContents(t.fs, p, data, append);
          if w.ok then Dirs.Change(Pass, w.fs) else Dirs.Change(Fail(PathNotWritable(p)), t.fs)
  }

  /** The checks copyTo makes before it touches anything: the source exists,
      the destination does not unless overwrite is set, the source is readable. */
  function CopyChecks(fs: Os.Fs, src: string, dst: string, overwrite: bool): Outcome {
    match FileExists(fs, src)
    case Err(e) => Fail(e)
    case Ok(present) =>
      if !present then Fail(NotAFile(src))
      else
        match FileExists(fs, dst)
        case Err(e) => Fail(e)
        case Ok(taken) =>
          if taken && !overwrite then Fail(PathExists(dst))
          else
            match FileReadable(fs, src)
            case Err(e) => Fail(e)
            case Ok(readable) => if !readable then Fail(PathNotReadable(src)) else Pass
  }

  /** What copyTo does once its checks pass: touch the destination's
      directory, check that the destination is writable, write the source's
      bytes to it. */
  function CopyWriteOn(fs: Os.Fs, base: string, src: string, dst: string): Dirs.Change
    requires ValidBase(base)
  {
    var c := Dirs.TouchOn(fs, base, ParentDir(dst, base));
    if c.outcome.Fail? then c
    else
      match FileWritable(c.fs, base, dst)
      case Err(e) => Dirs.Change(Fail(e), c.fs)
      case Ok(writable) =>
        if !writable then Dirs.Change(Fail(PathNotWritable(dst)), c.fs)
        else
          match ReadOn(c.fs, src)
          case Err(e) => Dirs.Change(Fail(e), c.fs)
          case Ok(data) => PutOn(c.fs, base, dst, data, false)
  }

  /** File::copyTo from the file at src to the file path dst. */
  function CopyToOn(fs: Os.Fs, base: string, src: string, dst: string, overwrite: bool): Dirs.Change
    requires ValidBase(base)
  {
    var pre := CopyChecks(fs, src, dst, overwrite);
    if pre.Fail? then Dirs.Change(pre, fs) else CopyWriteOn(fs, base, src, dst)
  }

  /** The checks moveTo makes before it touches anything: the source is a
      file, the destination does not exist, the source is readable and writable. */
  function MoveChecks(fs: Os.Fs, base: string, src: string, dst: string): Outcome
    requires ValidBase(base)
  {
    if FileAssert(fs, src).Fail? then Fail(NotAFile(src))
    else if !Os.IsFile(fs, src) then Fail(NotAFile(src))
    else
      match FileExists(fs, dst)
      case Err(e) => Fail(e)
      case Ok(taken) =>
        if taken then Fail(PathExists(dst))
        else if !Os.IsReadable(fs, src) then Fail(PathNotReadable(src))
        else
          match FileWritable(fs, base, src)
          case Err(e) => Fail(e)
          case Ok(srcWritable) => if !srcWritable then Fail(PathNotWritable(src)) else Pass
  }

  /** What moveTo does once its checks pass: touch the destination's
      directory, check that the destination is writable, rename. The result
      of rename is not looked at. */
  function MoveWriteOn(fs: Os.Fs, base: string, src: string, dst: string): Dirs.Change
    requires ValidBase(base)
  {
    var c := Dirs.TouchOn(fs, base, ParentDir(dst, base));
    if c.outcome.Fail? then c
    else
      match FileWritable(c.fs, base, dst)
      case Err(e) => Dirs.Change(Fail(e), c.fs)
      case Ok(writable) =>
        if !writable then Dirs.Change(Fail(PathNotWritable(dst)), c.fs)
        else Dirs.Change(Pass, Os.Rename(c.fs, src, dst).fs)
  }

  /** File::moveTo from the file at src to the file path dst. */
  function MoveToOn(fs: Os.Fs, base: string, src: string, dst: string): Dirs.Change
    requires ValidBase(base)
  {
    var pre := MoveChecks(fs, base, src, dst);
    if pre.Fail? then Dirs.Change(pre, fs) else MoveWriteOn(fs, base, src, dst)
  }

  /** File::delete: PathNotWritable unless the file exists, is writable and
      unlink succeeds. */
  function DeleteOn(fs: Os.Fs, base: string, p: string): Dirs.Change
    requires ValidBase(base)
  {
    match FileExists(fs, p)
    case Err(e) => Dirs.Change(Fail(e), fs)
    case Ok(present) =>
      if !present then Dirs.Change(Fail(PathNotWritable(p)), fs)
      else
        match FileWritable(fs, base, p)
        case Err(e) => Dirs.Change(Fail(e), fs)
        case Ok(writable) =>
          if !writable then Dirs.Change(Fail(PathNotWritable(p)), fs)
          else
            var u := Os.Unlink(fs, p);
            if u.ok then Dirs.Change(Pass, u.fs) else Dirs.Change(Fail(PathNotWritable(p)), fs)
  }

  // ------------------------------------------- the handle's path alone

  /** File::isWritable on a handle whose path is p. */
  method IsWritableAt(host: Os.Host, p: string) returns (r: Result<bool>)
    requires host.Valid()
    ensures r == FileWritable(host.fs, host.libDir, p)
  {
    if FileAssert(host.fs, p).Fail? {
      return Err(NotAFile(p));
    }
    if Os.IsWritable(host.fs, p) {
      return Ok(true);
    }
    if Os.IsFile(host.fs, p) {
      return Ok(false);
    }
    r := Dirs.IsWritable(host, ParentDir(p, host.libDir));
  }

  /** File::delete on a handle whose path is p; Dir::clear deletes the File
      handles listDirectory made through this. */
  method DeleteAt(host: Os.Host, p: string) returns (r: Outcome)
    requires host.Valid()
    modifies host
    ensures host.Valid()
    ensures Dirs.Change(r, host.fs) == DeleteOn(old(host.fs), host.libDir, p)
  {
    var present := FileExists(host.fs, p);
    if present.Err? {
      return Fail(present.error);
    }
    if !present.value {
      return Fail(PathNotWritable(p));
    }
    var w := IsWritableAt(host, p);
    if w.Err? {
      return Fail(w.error);
    }
    if !w.value {
      return Fail(PathNotWritable(p));
    }
    var u := Os.Unlink(host.fs, p);
    if !u.ok {
      return Fail(PathNotWritable(p));
    }
    Os.UnlinkKeepsWellFormed(host.fs, p);
    host.fs := u.fs;
    return Pass;
  }

  // ------------------------------------------------------------ the handle

  /** Where copyTo and moveTo send a file: a path string, another File, or a
      Dir, which stands for the entry of the same name inside it. */
  datatype Target = ToPath(s: string) | ToFile(f: File) | ToDir(d: Dirs.Dir)

  /** The destination path: new File(target), or the path of the File, or
      new File(dir . "/" . name) for a Dir. */
  function TargetPath(t: Target, name: string, base: string): string
    reads if t.ToFile? then {t.f} else {}
  {
    match t
    case ToPath(s) => RealPath(Str(s), base)
    case ToFile(f) => f.path
    case ToDir(d) => RealPath(Str(d.path + [Sep] + name), base)
  }

  class File {
    var path: string
    var basename: Option<string>
    var filename: Option<string>
    var extension: Option<string>
    var size: Option<nat>
    var mimeType: Option<string>
    var mimeExtension: Option<string>

    /** Every cached name part is the one pathinfo gives for the path. */
    predicate Coherent()
      reads this
    {
      && (basename.Some? ==> basename.value == PathInfo(path).basename)
      && (filename.Some? ==> filename.value == PathInfo(path).filename)
      && (extension.Some? ==> extension == PathInfo(path).extension)
    }

    /** No cached value is held. */
    predicate Cleared()
      reads this
    {
      basename.None? && filename.None? && extension.None? && size.None? && mimeType.None? && mimeExtension.None?
    }

    /** The name half of load has run on the current path. */
    predicate Loaded()
      reads this
    {
      && basename == Some(PathInfo(path).basename)
      && filename == Some(PathInfo(path).filename)
      && extension == PathInfo(path).extension
    }

    /** new File(path) */
    constructor (input: PathInput, base: string)
      ensures path == RealPath(input, base) && Cleared() && Coherent()
    {
      path := RealPath(input, base);
      basename, filename, extension := None, None, None;
      size, mimeType, mimeExtension := None, None, None;
    }

    /** File::init: the path through realPath, every cached value dropped. */
    method Init(input: PathInput, base: string)
      modifies this
      ensures path == RealPath(input, base) && Cleared() && Coherent()
    {
      path := RealPath(input, base);
      basename, filename, extension := None, None, None;
      size, mimeType, mimeExtension := None, None, None;
    }

    /** The name half of File::load: fills the name parts from pathinfo
        unless all three are cached. */
    method Load()
      requires Coherent()
      modifies this`basename, this`filename, this`extension
      ensures Loaded() && Coherent()
      ensures path == old(path) && size == old(size)
      ensures mimeType == old(mimeType) && mimeExtension == old(mimeExtension)
    {
      if basename.None? || filename.None? || extension.None? {
        FillNames();
      }
    }

    /** Sets the three name parts from pathinfo of the path. */
    method FillNames()
      modifies this`basename, this`filename, this`extension
      ensures Loaded() && Coherent()
    {
      var info := PathInfo(path);
      basename, filename, extension := Some(info.basename), Some(info.filename), info.extension;
      assert info == PathInfo(path);
    }

    /** File::getName */
    method GetName() returns (name: string)
      requires Coherent()
      modifies this
      ensures name == PathInfo(path).basename
      ensures Loaded() && Coherent()
      ensures path == old(path) && size == old(size)
      ensures mimeType == old(mimeType) && mimeExtension == old(mimeExtension)
    {
      Load();
      name := basename.value;
    }

    /** File::getFilename */
    method GetFilename() returns (name: string)
      requires Coherent()
      modifies this
      ensures name == PathInfo(path).filename
      ensures Loaded() && Coherent()
      ensures path == old(path) && size == old(size)
      ensures mimeType == old(mimeType) && mimeExtension == old(mimeExtension)
    {
      Load();
      name := filename.value;
    }

    /** File::getExtension, the extension taken from the name. */
    method GetExtension() returns (ext: Option<string>)
      requires Coherent()
      modifies this
      ensures ext == PathInfo(path).extension
      ensures Loaded() && Coherent()
      ensures path == old(path) && size == old(size)
      ensures mimeType == old(mimeType) && mimeExtension == old(mimeExtension)
    {
      Load();
      ext := extension;
    }

    /** File::isWritable */
    method IsWritable(host: Os.Host) returns (r: Result<bool>)
      requires host.Valid()
      ensures r == FileWritable(host.fs, host.libDir, path)
    {
      r := IsWritableAt(host, path);
    }

    /** File::touch */
    method Touch(host: Os.Host) returns (r: Outcome)
      requires host.Valid()
      modifies host
      ensures host.Valid()
      ensures Dirs.Change(r, host.fs) == TouchOn(old(host.fs), host.libDir, path)
    {
      if FileAssert(host.fs, path).Fail? {
        return Fail(NotAFile(path));
      }
      var w := IsWritable(host);
      if w.Err? {
        return Fail(w.error);
      }
      if !w.value {
        return Fail(PathNotWritable(path));
      }
      var parent := Dirs.Touch(host, ParentDir(path, host.libDir));
      if parent.Fail? && !parent.error.NotADirectory? {
        return parent;
      }
      var t := Os.Touch(host.fs, path);
      if !t.ok {
        return Fail(PathNotWritable(path));
      }
      Os.TouchKeepsWellFormed(host.fs, path);
      host.fs := t.fs;
      return Pass;
    }

    /** File::putContents */
    method PutContents(host: Os.Host, data: seq<Os.byte>, append: bool) returns (r: Outcome)
      requires host.Valid()
      modifies host
      ensures host.Valid()
      ensures Dirs.Change(r, host.fs) == PutOn(old(host.fs), host.libDir, path, data, append)
    {
      r := Touch(host);
      if r.Fail? {
        return;
      }
      var w := IsWritable(host);
      if w.Err? {
        return Fail(w.error);
      }
      if !w.value {
        return Fail(PathNotWritable(path));
      }
      var put := Os.FilePutContents(host.fs, path, data, append);
      if !put.ok {
        return Fail(PathNotWritable(path));
      }
      Os.FilePutContentsKeepsWellFormed(host.fs, path, data, append);
      host.fs := put.fs;
    }

    /** File::write */
    method Write(host: Os.Host, data: seq<Os.byte>) returns (r: Outcome)
      requires host.Valid()
      modifies host
      ensures host.Valid()
      ensures Dirs.Change(r, host.fs) == PutOn(old(host.fs), host.libDir, path, data, false)
    {
      r := PutContents(host, data, false);
    }

    /** File::append */
    method Append(host: Os.Host, data: seq<Os.byte>) returns (r: Outcome)
      requires host.Valid()
      modifies host
      ensures host.Valid()
      ensures Dirs.Change(r, host.fs) == PutOn(old(host.fs), host.libDir, path, data, true)
    {
      r := PutContents(host, data, true);
    }

    /** File::delete */
    method Delete(host: Os.Host) returns (r: Outcome)
      requires host.Valid()
      modifies host
      ensures host.Valid()
      ensures Dirs.Change(r, host.fs) == DeleteOn(old(host.fs), host.libDir, path)
    {
      r := DeleteAt(host, path);
    }

    /** The File handle copyTo and moveTo work on for a target; for a Dir the
        name comes from getName, which loads this handle's name parts. */
    method Destination(t: Target, base: string) returns (dest: File)
      requires Coherent()
      modifies this
      ensures dest.path == old(TargetPath(t, PathInfo(path).basename, base))
      ensures Coherent() && path == old(path) && size == old(size)
      ensures mimeType == old(mimeType) && mimeExtension == old(mimeExtension)
      ensures t.ToDir? ==> Loaded()
      ensures !t.ToDir? ==> basename == old(basename) && filename == old(filename) && extension == old(extension)
    {
      match t
      case ToPath(s) =>
        dest := new File(Str(s), base);
      case ToFile(f) =>
        dest := f;
      case ToDir(d) =>
        var name := GetName();
        dest := new File(Str(d.path + [Sep] + name), base);
    }

    /** File::copyTo */
    method CopyTo(host: Os.Host, t: Target, overwrite: bool) returns (r: Outcome)
      requires host.Valid() && Coherent()
      modifies this, host
      ensures host.Valid() && Coherent()
      ensures Dirs.Change(r, host.fs) == CopyToOn(old(host.fs), host.libDir, old(path),
        old(TargetPath(t, PathInfo(path).basename, host.libDir)), overwrite)
      ensures r.Pass? ==> path == RealPath(Str(old(TargetPath(t, PathInfo(path).basename, host.libDir))), host.libDir) && Cleared()
      ensures r.Fail? ==> path == old(path) && size == old(size) && mimeType == old(mimeType) && mimeExtension == old(mimeExtension)
      ensures r.Fail? && t.ToDir? ==> Loaded()
      ensures r.Fail? && !t.ToDir? ==> basename == old(basename) && filename == old(filename) && extension == old(extension)
    {
      var base := host.libDir;
      var dest := Destination(t, base);
      var dst := dest.path;
      r := dest.CopyFrom(host, path, overwrite);
      if r.Pass? {
        ghost var fs1 := host.fs;
        Init(Str(dst), base);
        assert host.fs == fs1 && host.libDir == base;
      }
    }

    /** The file work of copyTo, on the destination handle: the checks, then
        touch its directory, check that it is writable, write the bytes of src to it. */
    method CopyFrom(host: Os.Host, src: string, overwrite: bool) returns (r: Outcome)
      requires host.Valid()
      modifies host
      ensures host.Valid()
      ensures Dirs.Change(r, host.fs) == CopyToOn(old(host.fs), host.libDir, src, path, overwrite)
    {
      var base := host.libDir;
      r := CopyChecks(host.fs, src, path, overwrite);
      if r.Fail? {
        return;
      }
      r := Dirs.Touch(host, ParentDir(path, base));
      if r.Fail? {
        return;
      }
      var w := IsWritable(host);
      if w.Err? {
        return Fail(w.error);
      }
      if !w.value {
        return Fail(PathNotWritable(path));
      }
      var data := ReadOn(host.fs, src);
      if data.Err? {
        return Fail(data.error);
      }
      r := Write(host, data.value);
    }

    /** File::moveTo */
    method MoveTo(host: Os.Host, t: Target) returns (r: Outcome)
      requires host.Valid() && Coherent()
      modifies this, host
      ensures host.Valid() && Coherent()
      ensures Dirs.Change(r, host.fs) == MoveToOn(old(host.fs), host.libDir, old(path),
        old(TargetPath(t, PathInfo(path).basename, host.libDir)))
      ensures r.Pass? ==> path == RealPath(Str(old(TargetPath(t, PathInfo(path).basename, host.libDir))), host.libDir) && Cleared()
      ensures r.Fail? ==> path == old(path) && size == old(size) && mimeType == old(mimeType) && mimeExtension == old(mimeExtension)
      ensures r.Fail? && t.ToDir? && FileAssert(old(host.fs), old(path)).Pass? ==> Loaded()
      ensures r.Fail? && !(t.ToDir? && FileAssert(old(host.fs), old(path)).Pass?) ==>
        basename == old(basename) && filename == old(filename) && extension == old(extension)
    {
      var base := host.libDir;
      if FileAssert(host.fs, path).Fail? {
        return Fail(NotAFile(path));
      }
      var dest := Destination(t, base);
      var dst := dest.path;
      r := dest.MoveFrom(host, path);
      if r.Pass? {
        ghost var fs1 := host.fs;
        Init(Str(dst), base);
        assert host.fs == fs1 && host.libDir == base;
      }
    }

    /** The file work of moveTo, on the destination handle: the checks, then
        touch its directory, check that it is writable, rename src to it. */
    method MoveFrom(host: Os.Host, src: string) returns (r: Outcome)
      requires host.Valid()
      modifies host
      ensures host.Valid()
      ensures Dirs.Change(r, host.fs) == MoveToOn(old(host.fs), host.libDir, src, path)
    {
      var base := host.libDir;
      r := MoveChecks(host.fs, base, src, path);
      if r.Fail? {
        return;
      }
      r := Dirs.Touch(host, ParentDir(path, base));
      if r.Fail? {
        return;
      }
      var w := IsWritable(host);
      if w.Err? {
        return Fail(w.error);
      }
      if !w.value {
        return Fail(PathNotWritable(path));
      }
      Os.RenameKeepsWellFormed(host.fs, src, path);
      host.fs := Os.Rename(host.fs, src, path).fs;
    }
  }

  // ------------------------------------------------- laws, on the tree

  /** A File path at a canonical location resolves to it, and its parent Dir
      is the directory one level up. */
  lemma FileAt(l: string, base: string)
    requires CanonicalLoc(l) && l != ""
    ensures Os.Resolve(l) == Some(l)
    ensures CanonicalLoc(ParentLoc(l)) && |ParentLoc(l)| < |l|
    ensures ParentDir(l, base) == Dirs.Dir(DirOf(ParentLoc(l)))
    ensures Os.Resolve(ParentDir(l, base).path) == Some(ParentLoc(l))
  {
    Os.ResolveCanonical(l);
    ParentOfCanonical(l, base);
    CanonicalParent(l);
    Os.ResolveCanonical(ParentLoc(l));
  }

  /** isWritable holds for an existing file exactly when it is writable, and
      for a missing one exactly when the nearest existing directory above it
      is writable; a directory at the path is NotAFile. */
  lemma FileWritableOnTree(fs: Os.Fs, base: string, l: string)
    requires Os.WellFormed(fs) && ValidBase(base) && CanonicalLoc(l) && l != ""
    ensures FileWritable(fs, base, l) ==
      if l in fs.nodes then
        if fs.nodes[l].FileNode? then Ok(fs.nodes[l].writable) else Err(NotAFile(l))
      else Dirs.TreeWritable(fs, ParentLoc(l))
  {
    if l in fs.nodes {
      FileWritableExisting(fs, base, l);
    } else {
      FileWritableMissing(fs, base, l);
    }
  }

  lemma FileWritableExisting(fs: Os.Fs, base: string, l: string)
    requires Os.WellFormed(fs) && ValidBase(base) && CanonicalLoc(l) && l != "" && l in fs.nodes
    ensures FileWritable(fs, base, l) == if fs.nodes[l].FileNode? then Ok(fs.nodes[l].writable) else Err(NotAFile(l))
  {
    Os.ResolveCanonical(l);
    assert Os.Lookup(fs, l) == Some(fs.nodes[l]);
  }

  lemma FileWritableMissing(fs: Os.Fs, base: string, l: string)
    requires Os.WellFormed(fs) && ValidBase(base) && CanonicalLoc(l) && l != "" && l !in fs.nodes
    ensures FileWritable(fs, base, l) == Dirs.TreeWritable(fs, ParentLoc(l))
  {
    FileWritableFallsBack(fs, base, l);
    FileAt(l, base);
    Dirs.WalkWritableOnTree(fs, base, ParentLoc(l));
  }

  /** Nothing at the path: is_writable fails and the walk starts at the
      parent directory. */
  lemma FileWritableFallsBack(fs: Os.Fs, base: string, l: string)
    requires Os.WellFormed(fs) && ValidBase(base) && CanonicalLoc(l) && l !in fs.nodes
    ensures FileWritable(fs, base, l) == Dirs.WalkWritable(fs, base, ParentDir(l, base).path)
  {
    Os.ResolveCanonical(l);
    assert Os.Lookup(fs, l) == None;
    assert FileAssert(fs, l) == Pass && !Os.IsWritable(fs, l) && !Os.IsFile(fs, l);
  }

  /** touch keeps the tree and every node; on success the file is there, its
      node unchanged when it existed, new, empty, readable and writable
      otherwise. */
  lemma TouchEffect(fs: Os.Fs, base: string, l: string)
    requires Os.WellFormed(fs) && ValidBase(base) && CanonicalLoc(l) && l != ""
    ensures var c := TouchOn(fs, base, l);
      && Os.WellFormed(c.fs) && Os.Keeps(fs, c.fs)
      && AddsOnlyFor(fs, c.fs, l)
      && (c.outcome.Pass? ==> l in c.fs.nodes && c.fs.nodes[l].FileNode? && c.fs.nodes[l].writable)
      && (c.outcome.Pass? && l !in fs.nodes ==> c.fs.nodes[l] == Os.FileNode([], true, true))
  {
    var c := TouchOn(fs, base, l);
    if FileAssert(fs, l).Fail? {
      assert c == Dirs.Change(Fail(NotAFile(l)), fs);
    } else if FileWritable(fs, base, l).Err? {
      assert c == Dirs.Change(Fail(FileWritable(fs, base, l).error), fs);
    } else if !FileWritable(fs, base, l).value {
      assert c == Dirs.Change(Fail(PathNotWritable(l)), fs);
    } else {
      TouchAfterChecks(fs, base, l);
    }
    TouchAdds(fs, base, l);
  }

  /** What an operation on the file at l may add to the tree: l itself, and
      the read-write directories touch creates at or above l's directory. */
  ghost predicate AddsOnlyFor(fs: Os.Fs, fs': Os.Fs, l: string) {
    forall k :: k in fs'.nodes && k !in fs.nodes ==>
      k == l || (fs'.nodes[k] == Os.DirNode(true, true) && Os.AtOrAbove(k, ParentLoc(l)))
  }

  /** Two steps that each add only for l, the second changing no node of the
      first but l, add only for l. */
  lemma AddsOnlyChain(a: Os.Fs, b: Os.Fs, c: Os.Fs, l: string)
    requires AddsOnlyFor(a, b, l) && AddsOnlyFor(b, c, l)
    requires forall k :: k in b.nodes && k != l ==> k in c.nodes && c.nodes[k] == b.nodes[k]
    ensures AddsOnlyFor(a, c, l)
  {
    forall k | k in c.nodes && k !in a.nodes && k != l
      ensures c.nodes[k] == Os.DirNode(true, true) && Os.AtOrAbove(k, ParentLoc(l))
    {
      if k in b.nodes {
        assert c.nodes[k] == b.nodes[k];
      }
    }
  }

  /** A step whose nodes other than l all come unchanged from a state that
      adds only for l adds only for l. */
  lemma AddsOnlyAt(a: Os.Fs, b: Os.Fs, c: Os.Fs, l: string)
    requires AddsOnlyFor(a, b, l)
    requires forall k :: k in c.nodes && k != l ==> k in b.nodes && c.nodes[k] == b.nodes[k]
    ensures AddsOnlyFor(a, c, l)
  {
    forall k | k in c.nodes && k !in a.nodes && k != l
      ensures c.nodes[k] == Os.DirNode(true, true) && Os.AtOrAbove(k, ParentLoc(l))
    {
      assert k in b.nodes && c.nodes[k] == b.nodes[k];
    }
  }

  /** Touching the directory of l adds only read-write directories at or above it. */
  lemma ParentTouchAdds(fs: Os.Fs, base: string, l: string)
    requires Os.WellFormed(fs) && ValidBase(base) && CanonicalLoc(l) && l != ""
    ensures var c := Dirs.TouchOn(fs, base, ParentDir(l, base));
      Os.WellFormed(c.fs) && Os.Keeps(fs, c.fs) && AddsOnlyFor(fs, c.fs, l)
  {
    FileAt(l, base);
    Dirs.TouchKeeps(fs, base, ParentDir(l, base));
  }

  lemma TouchAdds(fs: Os.Fs, base: string, l: string)
    requires Os.WellFormed(fs) && ValidBase(base) && CanonicalLoc(l) && l != ""
    ensures AddsOnlyFor(fs, TouchOn(fs, base, l).fs, l)
  {
    var c1 := Dirs.TouchOn(fs, base, ParentDir(l, base));
    TouchShape(fs, base, l);
    ParentTouchAdds(fs, base, l);
    Os.ResolveCanonical(l);
    Os.TouchFrame(c1.fs, l);
    AddsOnlyAt(fs, c1.fs, Os.Touch(c1.fs, l).fs, l);
  }

  /** touch leaves the tree as it was, as touching the directory left it, or
      as touch(2) on that left it. */
  lemma TouchShape(fs: Os.Fs, base: string, l: string)
    requires ValidBase(base)
    ensures var c1 := Dirs.TouchOn(fs, base, ParentDir(l, base));
      var fs' := TouchOn(fs, base, l).fs;
      fs' == fs || fs' == c1.fs || fs' == Os.Touch(c1.fs, l).fs
  {
    if FileAssert(fs, l).Pass? && FileWritable(fs, base, l).Ok? && FileWritable(fs, base, l).value {
      var c1 := Dirs.TouchOn(fs, base, ParentDir(l, base));
      if !(c1.outcome.Fail? && !c1.outcome.error.NotADirectory?) {
        var t := Os.Touch(c1.fs, l);
        assert TouchOn(fs, base, l).fs == if t.ok then t.fs else c1.fs;
      }
    }
  }

  /** touch once the file is known to be writable: the parent step, then the file step. */
  lemma TouchAfterChecks(fs: Os.Fs, base: string, l: string)
    requires Os.WellFormed(fs) && ValidBase(base) && CanonicalLoc(l) && l != ""
    requires FileAssert(fs, l).Pass? && FileWritable(fs, base, l) == Ok(true)
    ensures var c := TouchOn(fs, base, l);
      && Os.WellFormed(c.fs) && Os.Keeps(fs, c.fs)
      && (forall k :: k in c.fs.nodes && k !in fs.nodes && k != l ==> c.fs.nodes[k] == Os.DirNode(true, true))
      && (c.outcome.Pass? ==> l in c.fs.nodes && c.fs.nodes[l].FileNode? && c.fs.nodes[l].writable)
      && (c.outcome.Pass? && l !in fs.nodes ==> c.fs.nodes[l] == Os.FileNode([], true, true))
  {
    FileAt(l, base);
    var c := TouchOn(fs, base, l);
    {
      var pd := ParentDir(l, base);
      Dirs.TouchKeeps(fs, base, pd);
      var c1 := Dirs.TouchOn(fs, base, pd);
      if !(c1.outcome.Fail? && !c1.outcome.error.NotADirectory?) {
        var t := Os.Touch(c1.fs, l);
        assert c == if t.ok then Dirs.Change(Pass, t.fs) else Dirs.Change(Fail(PathNotWritable(l)), c1.fs);
        Os.AboveNotLonger(l, ParentLoc(l));
        assert l in c1.fs.nodes ==> l in fs.nodes;
        TouchFileStep(fs, c1.fs, l);
      } else {
        assert c == c1;
      }
    }
  }

  /** The file step of touch after the parent step, stated on the trees alone. */
  lemma TouchFileStep(fs: Os.Fs, fs1: Os.Fs, l: string)
    requires Os.WellFormed(fs1) && Os.Keeps(fs, fs1)
    requires forall k :: k in fs1.nodes && k !in fs.nodes ==> fs1.nodes[k] == Os.DirNode(true, true)
    requires Os.Resolve(l) == Some(l) && FileAssert(fs, l).Pass? && (l in fs1.nodes ==> l in fs.nodes)
    ensures var t := Os.Touch(fs1, l);
      && Os.WellFormed(t.fs) && Os.Keeps(fs, t.fs)
      && (forall k :: k in t.fs.nodes && k !in fs.nodes && k != l ==> t.fs.nodes[k] == Os.DirNode(true, true))
      && (t.ok ==> l in t.fs.nodes && t.fs.nodes[l].FileNode? && t.fs.nodes[l].writable)
      && (t.ok && l !in fs.nodes ==> t.fs.nodes[l] == Os.FileNode([], true, true))
  {
    Os.TouchKeepsWellFormed(fs1, l);
    if Os.Touch(fs1, l).ok {
      TouchCreatesFile(fs, fs1, l);
    }
  }

  /** The file step of touch: an existing node must be a writable file and
      stays as it is; a missing one is created empty. */
  lemma TouchCreatesFile(fs: Os.Fs, fs1: Os.Fs, l: string)
    requires Os.Resolve(l) == Some(l) && FileAssert(fs, l).Pass?
    requires Os.Keeps(fs, fs1) && (l in fs1.nodes ==> l in fs.nodes)
    requires Os.Touch(fs1, l).ok
    ensures var t := Os.Touch(fs1, l).fs;
      && l in t.nodes && t.nodes[l].FileNode? && t.nodes[l].writable
      && (l !in fs.nodes ==> t.nodes[l] == Os.FileNode([], true, true))
      && (forall k :: k in t.nodes && k != l ==> k in fs1.nodes && t.nodes[k] == fs1.nodes[k])
  {
  }

  /** touch fails with PathNotWritable on a read-only file and changes nothing. */
  lemma TouchReadOnly(fs: Os.Fs, base: string, l: string)
    requires Os.WellFormed(fs) && ValidBase(base) && CanonicalLoc(l) && l != ""
    requires l in fs.nodes && fs.nodes[l].FileNode? && !fs.nodes[l].writable
    ensures TouchOn(fs, base, l) == Dirs.Change(Fail(PathNotWritable(l)), fs)
  {
    FileWritableOnTree(fs, base, l);
  }

  /** touch on a writable file succeeds and changes nothing. */
  lemma TouchWritable(fs: Os.Fs, base: string, l: string)
    requires Os.WellFormed(fs) && ValidBase(base) && CanonicalLoc(l) && l != ""
    requires l in fs.nodes && fs.nodes[l].FileNode? && fs.nodes[l].writable
    ensures TouchOn(fs, base, l) == Dirs.Change(Pass, fs)
  {
    FileAt(l, base);
    FileWritableOnTree(fs, base, l);
    Dirs.TouchExisting(fs, base, ParentLoc(l));
  }

  /** touch on a missing file under a writable directory creates it. */
  lemma TouchCreates(fs: Os.Fs, base: string, l: string)
    requires Os.WellFormed(fs) && ValidBase(base) && CanonicalLoc(l) && l != ""
    requires l !in fs.nodes && Dirs.TreeWritable(fs, ParentLoc(l)) == Ok(true)
    ensures TouchOn(fs, base, l).outcome.Pass?
  {
    FileAt(l, base);
    FileWritableOnTree(fs, base, l);
    Dirs.TouchWritableDir(fs, base, ParentLoc(l));
    Dirs.TouchKeeps(fs, base, ParentDir(l, base));
  }

  /** A second touch after a successful one succeeds and changes nothing. */
  lemma TouchIdempotent(fs: Os.Fs, base: string, l: string)
    requires Os.WellFormed(fs) && ValidBase(base) && CanonicalLoc(l) && l != ""
    requires TouchOn(fs, base, l).outcome.Pass?
    ensures TouchOn(TouchOn(fs, base, l).fs, base, l) == Dirs.Change(Pass, TouchOn(fs, base, l).fs)
  {
    TouchEffect(fs, base, l);
    TouchWritable(TouchOn(fs, base, l).fs, base, l);
  }

  /** read on the tree: the bytes of a readable file; PathNotReadable for a
      missing or unreadable one, NotAFile for a directory. */
  lemma ReadOnTree(fs: Os.Fs, l: string)
    requires CanonicalLoc(l) && l != ""
    ensures ReadOn(fs, l) ==
      if l !in fs.nodes then Err(PathNotReadable(l))
      else if fs.nodes[l].DirNode? then Err(NotAFile(l))
      else if fs.nodes[l].readable then Ok(fs.nodes[l].data)
      else Err(PathNotReadable(l))
  {
    Os.ResolveCanonical(l);
  }

  /** putContents succeeds exactly when its touch does; the file then holds
      the data, after its old bytes when appending, and no other node
      changes. */
  lemma PutEffect(fs: Os.Fs, base: string, l: string, data: seq<Os.byte>, append: bool)
    requires Os.WellFormed(fs) && ValidBase(base) && CanonicalLoc(l) && l != ""
    ensures var c := PutOn(fs, base, l, data, append);
      && Os.WellFormed(c.fs)
      && (c.outcome.Pass? <==> TouchOn(fs, base, l).outcome.Pass?)
      && (forall k :: k in fs.nodes && k != l ==> k in c.fs.nodes && c.fs.nodes[k] == fs.nodes[k])
      && (c.outcome.Pass? ==> l in c.fs.nodes && c.fs.nodes[l] == Os.FileNode(
            if append && l in fs.nodes && fs.nodes[l].FileNode? then fs.nodes[l].data + data else data,
            if l in fs.nodes then fs.nodes[l].readable else true, true))
      && AddsOnlyFor(fs, c.fs, l)
  {
    TouchEffect(fs, base, l);
    var t := TouchOn(fs, base, l);
    if t.outcome.Pass? {
      PutWrites(fs, base, l, data, append);
    } else {
      assert PutOn(fs, base, l, data, append) == t;
    }
    PutAdds(fs, base, l, data, append);
  }

  lemma PutAdds(fs: Os.Fs, base: string, l: string, data: seq<Os.byte>, append: bool)
    requires Os.WellFormed(fs) && ValidBase(base) && CanonicalLoc(l) && l != ""
    ensures AddsOnlyFor(fs, PutOn(fs, base, l, data, append).fs, l)
  {
    var t := TouchOn(fs, base, l).fs;
    PutShape(fs, base, l, data, append);
    TouchAdds(fs, base, l);
    Os.ResolveCanonical(l);
    Os.PutContentsFrame(t, l, data, append);
    AddsOnlyAt(fs, t, Os.FilePutContents(t, l, data, append).fs, l);
  }

  /** putContents leaves the tree as touch left it, or as file_put_contents on that left it. */
  lemma PutShape(fs: Os.Fs, base: string, l: string, data: seq<Os.byte>, append: bool)
    requires ValidBase(base)
    ensures var t := TouchOn(fs, base, l).fs;
      var fs' := PutOn(fs, base, l, data, append).fs;
      fs' == t || fs' == Os.FilePutContents(t, l, data, append).fs
  {
  }

  /** After a successful touch, putContents replaces or extends the file
      touch left and nothing else. */
  lemma PutWrites(fs: Os.Fs, base: string, l: string, data: seq<Os.byte>, append: bool)
    requires Os.WellFormed(fs) && ValidBase(base) && CanonicalLoc(l) && l != ""
    requires TouchOn(fs, base, l).outcome.Pass?
    ensures var c := PutOn(fs, base, l, data, append);
      && Os.WellFormed(c.fs) && c.outcome.Pass?
      && (forall k :: k in fs.nodes && k != l ==> k in c.fs.nodes && c.fs.nodes[k] == fs.nodes[k])
      && l in c.fs.nodes && c.fs.nodes[l] == Os.FileNode(
            if append && l in fs.nodes && fs.nodes[l].FileNode? then fs.nodes[l].data + data else data,
            if l in fs.nodes then fs.nodes[l].readable else true, true)
  {
    TouchedFile(fs, base, l);
    PutStep(fs, base, l, data, append);
    PutOverTouched(fs, TouchOn(fs, base, l).fs, l, data, append);
  }

  /** Writing into the file a touch left, stated on the two trees alone. */
  lemma PutOverTouched(fs: Os.Fs, t: Os.Fs, l: string, data: seq<Os.byte>, append: bool)
    requires Os.WellFormed(t) && Os.Keeps(fs, t) && CanonicalLoc(l) && l != ""
    requires l in t.nodes && t.nodes[l].FileNode? && t.nodes[l].writable
    requires l in fs.nodes ==> fs.nodes[l].FileNode? && t.nodes[l] == fs.nodes[l]
    requires l !in fs.nodes ==> t.nodes[l] == Os.FileNode([], true, true)
    ensures var n := t.nodes[l];
      var fs' := Os.Put(t, l, Os.FileNode(if append then n.data + data else data, n.readable, true));
      && Os.WellFormed(fs')
      && (forall k :: k in fs.nodes && k != l ==> k in fs'.nodes && fs'.nodes[k] == fs.nodes[k])
      && l in fs'.nodes && fs'.nodes[l] == Os.FileNode(
            if append && l in fs.nodes && fs.nodes[l].FileNode? then fs.nodes[l].data + data else data,
            if l in fs.nodes then fs.nodes[l].readable else true, true)
  {
    var n := t.nodes[l];
    var written := Os.FileNode(if append then n.data + data else data, n.readable, true);
    assert l !in fs.nodes ==> [] + data == data;
    CanonicalParent(l);
    Os.PutKeepsWellFormed(t, l, written);
    Os.PutFrame(t, l, written);
  }

  /** The file a successful touch leaves: the old file if there was one,
      otherwise an empty readable one; writable either way. */
  lemma TouchedFile(fs: Os.Fs, base: string, l: string)
    requires Os.WellFormed(fs) && ValidBase(base) && CanonicalLoc(l) && l != ""
    requires TouchOn(fs, base, l).outcome.Pass?
    ensures var t := TouchOn(fs, base, l).fs;
      && Os.WellFormed(t) && Os.Keeps(fs, t)
      && l in t.nodes && t.nodes[l].FileNode? && t.nodes[l].writable
      && (l in fs.nodes ==> fs.nodes[l].FileNode? && t.nodes[l] == fs.nodes[l])
      && (l !in fs.nodes ==> t.nodes[l] == Os.FileNode([], true, true))
  {
    TouchEffect(fs, base, l);
  }

  /** Once touch has left a writable file, putContents writes through. */
  lemma PutStep(fs: Os.Fs, base: string, l: string, data: seq<Os.byte>, append: bool)
    requires ValidBase(base) && CanonicalLoc(l) && l != ""
    requires TouchOn(fs, base, l).outcome.Pass?
    requires var t := TouchOn(fs, base, l).fs; l in t.nodes && t.nodes[l].FileNode? && t.nodes[l].writable
    ensures var t := TouchOn(fs, base, l).fs; var n := t.nodes[l];
      PutOn(fs, base, l, data, append) ==
        Dirs.Change(Pass, Os.Put(t, l, Os.FileNode(if append then n.data + data else data, n.readable, true)))
  {
    Os.ResolveCanonical(l);
    var t := TouchOn(fs, base, l).fs;
    assert Os.Lookup(t, l) == Some(t.nodes[l]);
  }

  /** Reading after a write returns exactly the data written. */
  lemma WriteThenRead(fs: Os.Fs, base: string, l: string, data: seq<Os.byte>)
    requires Os.WellFormed(fs) && ValidBase(base) && CanonicalLoc(l) && l != ""
    requires PutOn(fs, base, l, data, false).outcome.Pass?
    requires l in fs.nodes ==> fs.nodes[l].readable
    ensures ReadOn(PutOn(fs, base, l, data, false).fs, l) == Ok(data)
  {
    PutEffect(fs, base, l, data, false);
    ReadOnTree(PutOn(fs, base, l, data, false).fs, l);
  }

  /** Reading after an append returns the old bytes followed by the new. */
  lemma AppendThenRead(fs: Os.Fs, base: string, l: string, data: seq<Os.byte>)
    requires Os.WellFormed(fs) && ValidBase(base) && CanonicalLoc(l) && l != ""
    requires PutOn(fs, base, l, data, true).outcome.Pass?
    requires l in fs.nodes && fs.nodes[l].FileNode? && fs.nodes[l].readable
    ensures ReadOn(PutOn(fs, base, l, data, true).fs, l) == Ok(fs.nodes[l].data + data)
  {
    PutEffect(fs, base, l, data, true);
    ReadOnTree(PutOn(fs, base, l, data, true).fs, l);
  }

  /** A second write replaces what the first wrote. */
  lemma WriteTwice(fs: Os.Fs, base: string, l: string, d1: seq<Os.byte>, d2: seq<Os.byte>)
    requires Os.WellFormed(fs) && ValidBase(base) && CanonicalLoc(l) && l != ""
    requires PutOn(fs, base, l, d1, false).outcome.Pass?
    requires l in fs.nodes ==> fs.nodes[l].readable
    ensures var fs1 := PutOn(fs, base, l, d1, false).fs;
      PutOn(fs1, base, l, d2, false).outcome.Pass? && ReadOn(PutOn(fs1, base, l, d2, false).fs, l) == Ok(d2)
  {
    PutEffect(fs, base, l, d1, false);
    var fs1 := PutOn(fs, base, l, d1, false).fs;
    TouchWritable(fs1, base, l);
    PutEffect(fs1, base, l, d2, false);
    WriteThenRead(fs1, base, l, d2);
  }

  // ------------------------------------------ kinds, delete, copy, move

  /** The type guards on the tree: a File handle fails exactly when a
      directory is at its location, never for a missing one; a Dir handle
      fails exactly when a file is there; a handle of the other kind always fails. */
  lemma AssertKindOnTree(fs: Os.Fs, l: string)
    requires CanonicalLoc(l) && l != ""
    ensures AssertIsFile(fs, Dirs.FileEntry(l)).Fail? <==> l in fs.nodes && fs.nodes[l].DirNode?
    ensures AssertIsDir(fs, Dirs.DirEntry(Dirs.Dir(DirOf(l)))).Fail? <==> l in fs.nodes && fs.nodes[l].FileNode?
    ensures AssertIsFile(fs, Dirs.DirEntry(Dirs.Dir(DirOf(l)))) == Fail(NotAFile(DirOf(l)))
    ensures AssertIsDir(fs, Dirs.FileEntry(l)) == Fail(NotADirectory(l))
  {
    Os.ResolveCanonical(l);
  }

  /** delete on the tree: PathNotWritable for a missing or read-only file
      and when unlink fails because the directory is read-only; NotAFile for
      a directory; otherwise the file, and nothing else, is gone. */
  lemma DeleteOnTree(fs: Os.Fs, base: string, l: string)
    requires Os.WellFormed(fs) && ValidBase(base) && CanonicalLoc(l) && l != ""
    ensures DeleteOn(fs, base, l) ==
      if l !in fs.nodes then Dirs.Change(Fail(PathNotWritable(l)), fs)
      else if fs.nodes[l].DirNode? then Dirs.Change(Fail(NotAFile(l)), fs)
      else if !fs.nodes[l].writable || !Os.WritableDir(fs, ParentLoc(l)) then Dirs.Change(Fail(PathNotWritable(l)), fs)
      else Dirs.Change(Pass, Os.Remove(fs, l))
  {
    Os.ResolveCanonical(l);
    FileWritableOnTree(fs, base, l);
  }

  /** delete only ever removes the file at its own location. */
  lemma DeleteShrinks(fs: Os.Fs, base: string, l: string)
    requires Os.WellFormed(fs) && ValidBase(base) && CanonicalLoc(l) && l != ""
    ensures var c := DeleteOn(fs, base, l);
      && Os.WellFormed(c.fs) && c.fs.nodes == (if c.outcome.Pass? then fs.nodes - {l} else fs.nodes)
  {
    DeleteOnTree(fs, base, l);
    if DeleteOn(fs, base, l).outcome.Pass? {
      Os.FileHasNoChildren(fs, l);
      Os.RemoveKeepsWellFormed(fs, l);
    }
  }

  /** copyTo's checks, in their order: a missing source is NotAFile, an
      existing destination without overwrite is PathExists, an unreadable
      source is PathNotReadable; each leaves the tree as it was. */
  lemma CopyCheckOrder(fs: Os.Fs, base: string, s: string, d: string, overwrite: bool)
    requires ValidBase(base) && CanonicalLoc(s) && s != "" && CanonicalLoc(d) && d != ""
    requires s in fs.nodes ==> fs.nodes[s].FileNode?
    requires d in fs.nodes ==> fs.nodes[d].FileNode?
    ensures s !in fs.nodes ==> CopyToOn(fs, base, s, d, overwrite) == Dirs.Change(Fail(NotAFile(s)), fs)
    ensures s in fs.nodes && d in fs.nodes && !overwrite ==>
      CopyToOn(fs, base, s, d, overwrite) == Dirs.Change(Fail(PathExists(d)), fs)
    ensures s in fs.nodes && (d !in fs.nodes || overwrite) && !fs.nodes[s].readable ==>
      CopyToOn(fs, base, s, d, overwrite) == Dirs.Change(Fail(PathNotReadable(s)), fs)
    ensures s in fs.nodes && (d !in fs.nodes || overwrite) && fs.nodes[s].readable ==>
      CopyChecks(fs, s, d, overwrite) == Pass
  {
    Os.ResolveCanonical(s);
    Os.ResolveCanonical(d);
  }

  /** Past its checks, copyTo fails with PathNotWritable naming the
      destination when the destination is a read-only file, or is missing
      from an existing directory that is not writable. */
  lemma CopyUnwritableDestination(fs: Os.Fs, base: string, s: string, d: string, overwrite: bool)
    requires Os.WellFormed(fs) && ValidBase(base) && CanonicalLoc(s) && s != "" && CanonicalLoc(d) && d != ""
    requires CopyChecks(fs, s, d, overwrite) == Pass
    requires (d in fs.nodes && fs.nodes[d].FileNode? && !fs.nodes[d].writable)
          || (d !in fs.nodes && ParentLoc(d) in fs.nodes && fs.nodes[ParentLoc(d)].DirNode? && !fs.nodes[ParentLoc(d)].writable)
    ensures CopyToOn(fs, base, s, d, overwrite) == Dirs.Change(Fail(PathNotWritable(d)), fs)
  {
    FileAt(d, base);
    var pd := ParentDir(d, base);
    Dirs.TouchExisting(fs, base, ParentLoc(d));
    assert Dirs.TouchOn(fs, base, pd) == Dirs.Change(Pass, fs);
    assert FileWritable(fs, base, d) == Ok(false) by {
      FileWritableOnTree(fs, base, d);
      if d !in fs.nodes {
        assert Os.NearestExisting(fs.nodes, ParentLoc(d)) == ParentLoc(d);
      }
    }
    assert CopyWriteOn(fs, base, s, d) == Dirs.Change(Fail(PathNotWritable(d)), fs);
  }

  /** After a successful copyTo the source was a readable file; the
      destination now holds its bytes, and every other node that was there
      is unchanged, the source included. */
  lemma CopyEffect(fs: Os.Fs, base: string, s: string, d: string, overwrite: bool)
    requires Os.WellFormed(fs) && ValidBase(base) && CanonicalLoc(s) && s != "" && CanonicalLoc(d) && d != ""
    requires CopyToOn(fs, base, s, d, overwrite).outcome.Pass?
    ensures s in fs.nodes && fs.nodes[s].FileNode? && fs.nodes[s].readable
    ensures var fs' := CopyToOn(fs, base, s, d, overwrite).fs;
      && Os.WellFormed(fs')
      && d in fs'.nodes && fs'.nodes[d].FileNode? && fs'.nodes[d].data == fs.nodes[s].data
      && (forall k :: k in fs.nodes && k != d ==> k in fs'.nodes && fs'.nodes[k] == fs.nodes[k])
      && AddsOnlyFor(fs, fs', d)
  {
    var data := CopySource(fs, s, d, overwrite);
    var c := Dirs.TouchOn(fs, base, ParentDir(d, base));
    Dirs.TouchKeeps(fs, base, ParentDir(d, base));
    assert c.outcome.Pass?;
    ReadOnTree(c.fs, s);
    assert ReadOn(c.fs, s) == Ok(data);
    assert CopyToOn(fs, base, s, d, overwrite) == CopyWriteOn(fs, base, s, d);
    CopyWritePasses(fs, base, s, d);
    PutEffect(c.fs, base, d, data, false);
    ParentTouchAdds(fs, base, d);
    AddsOnlyChain(fs, c.fs, PutOn(c.fs, base, d, data, false).fs, d);
  }

  /** When the writing half of copyTo succeeds, touching the destination's
      directory succeeded and found the destination writable, the source
      could be read, and what is left is the write of its bytes. */
  lemma CopyWritePasses(fs: Os.Fs, base: string, s: string, d: string)
    requires ValidBase(base)
    ensures var c := Dirs.TouchOn(fs, base, ParentDir(d, base));
      CopyWriteOn(fs, base, s, d).outcome.Pass? ==>
        && c.outcome.Pass? && FileWritable(c.fs, base, d) == Ok(true) && ReadOn(c.fs, s).Ok?
        && CopyWriteOn(fs, base, s, d) == PutOn(c.fs, base, d, ReadOn(c.fs, s).value, false)
  {
    var c := Dirs.TouchOn(fs, base, ParentDir(d, base));
    if c.outcome.Fail? {
      assert CopyWriteOn(fs, base, s, d) == c;
    } else {
      var w := FileWritable(c.fs, base, d);
      if w.Err? {
        assert CopyWriteOn(fs, base, s, d) == Dirs.Change(Fail(w.error), c.fs);
      } else if !w.value {
        assert CopyWriteOn(fs, base, s, d) == Dirs.Change(Fail(PathNotWritable(d)), c.fs);
      } else if ReadOn(c.fs, s).Err? {
        assert CopyWriteOn(fs, base, s, d) == Dirs.Change(Fail(ReadOn(c.fs, s).error), c.fs);
      } else {
        assert CopyWriteOn(fs, base, s, d) == PutOn(c.fs, base, d, ReadOn(c.fs, s).value, false);
      }
    }
  }

  /** copyTo's checks pass only for a readable source file. */
  lemma CopySource(fs: Os.Fs, s: string, d: string, overwrite: bool) returns (data: seq<Os.byte>)
    requires CanonicalLoc(s) && s != "" && CopyChecks(fs, s, d, overwrite) == Pass
    ensures s in fs.nodes && fs.nodes[s].FileNode? && fs.nodes[s].readable && data == fs.nodes[s].data
  {
    Os.ResolveCanonical(s);
    assert FileExists(fs, s) == Ok(true);
    data := fs.nodes[s].data;
  }

  /** moveTo's checks, in their order: a missing source is NotAFile, an
      existing destination is always PathExists, then an unreadable and then
      a read-only source; each leaves the tree as it was. */
  lemma MoveCheckOrder(fs: Os.Fs, base: string, s: string, d: string)
    requires Os.WellFormed(fs) && ValidBase(base) && CanonicalLoc(s) && s != "" && CanonicalLoc(d) && d != ""
    requires s in fs.nodes ==> fs.nodes[s].FileNode?
    requires d in fs.nodes ==> fs.nodes[d].FileNode?
    ensures s !in fs.nodes ==> MoveToOn(fs, base, s, d) == Dirs.Change(Fail(NotAFile(s)), fs)
    ensures s in fs.nodes && d in fs.nodes ==> MoveToOn(fs, base, s, d) == Dirs.Change(Fail(PathExists(d)), fs)
    ensures s in fs.nodes && d !in fs.nodes && !fs.nodes[s].readable ==>
      MoveToOn(fs, base, s, d) == Dirs.Change(Fail(PathNotReadable(s)), fs)
    ensures s in fs.nodes && d !in fs.nodes && fs.nodes[s].readable && !fs.nodes[s].writable ==>
      MoveToOn(fs, base, s, d) == Dirs.Change(Fail(PathNotWritable(s)), fs)
  {
    if s !in fs.nodes {
      MoveChecksNoSource(fs, base, s, d);
    } else {
      MoveChecksSource(fs, base, s, d);
    }
  }

  lemma MoveChecksNoSource(fs: Os.Fs, base: string, s: string, d: string)
    requires Os.WellFormed(fs) && ValidBase(base) && CanonicalLoc(s) && s != "" && s !in fs.nodes
    ensures MoveChecks(fs, base, s, d) == Fail(NotAFile(s))
  {
    Os.ResolveCanonical(s);
    assert Os.Lookup(fs, s) == None && !Os.IsFile(fs, s);
  }

  lemma MoveChecksSource(fs: Os.Fs, base: string, s: string, d: string)
    requires Os.WellFormed(fs) && ValidBase(base) && CanonicalLoc(s) && s != "" && CanonicalLoc(d) && d != ""
    requires s in fs.nodes && fs.nodes[s].FileNode?
    requires d in fs.nodes ==> fs.nodes[d].FileNode?
    ensures d in fs.nodes ==> MoveChecks(fs, base, s, d) == Fail(PathExists(d))
    ensures d !in fs.nodes && !fs.nodes[s].readable ==> MoveChecks(fs, base, s, d) == Fail(PathNotReadable(s))
    ensures d !in fs.nodes && fs.nodes[s].readable && !fs.nodes[s].writable ==>
      MoveChecks(fs, base, s, d) == Fail(PathNotWritable(s))
  {
    Os.ResolveCanonical(s);
    Os.ResolveCanonical(d);
    assert Os.Lookup(fs, s) == Some(fs.nodes[s]) && Os.IsFile(fs, s);
    assert FileExists(fs, d) == Ok(d in fs.nodes);
    FileWritableExisting(fs, base, s);
  }

  /** When moveTo succeeds its checks passed: the source was a readable,
      writable file and nothing was at the destination. */
  lemma MoveChecksPass(fs: Os.Fs, base: string, s: string, d: string)
    requires Os.WellFormed(fs) && ValidBase(base) && CanonicalLoc(s) && s != "" && CanonicalLoc(d) && d != ""
    ensures MoveToOn(fs, base, s, d).outcome.Pass? ==>
      && MoveChecks(fs, base, s, d) == Pass
      && s in fs.nodes && fs.nodes[s].FileNode? && fs.nodes[s].readable && fs.nodes[s].writable
      && d !in fs.nodes
  {
    Os.ResolveCanonical(s);
    Os.ResolveCanonical(d);
    FileWritableOnTree(fs, base, s);
    var pre := MoveChecks(fs, base, s, d);
    if pre.Fail? {
      assert MoveToOn(fs, base, s, d) == Dirs.Change(pre, fs);
    } else {
      assert FileExists(fs, d) == Ok(d in fs.nodes);
    }
  }

  /** When the writing half of moveTo succeeds, touching the destination's
      directory succeeded and found the destination writable, and the state
      after is whatever rename leaves. */
  lemma MoveWritePasses(fs: Os.Fs, base: string, s: string, d: string)
    requires ValidBase(base)
    ensures var c := Dirs.TouchOn(fs, base, ParentDir(d, base));
      MoveWriteOn(fs, base, s, d).outcome.Pass? ==>
        && c.outcome.Pass? && FileWritable(c.fs, base, d) == Ok(true)
        && MoveWriteOn(fs, base, s, d) == Dirs.Change(Pass, Os.Rename(c.fs, s, d).fs)
  {
    var c := Dirs.TouchOn(fs, base, ParentDir(d, base));
    if c.outcome.Fail? {
      assert MoveWriteOn(fs, base, s, d) == c;
    } else {
      var w := FileWritable(c.fs, base, d);
      if w.Err? {
        assert MoveWriteOn(fs, base, s, d) == Dirs.Change(Fail(w.error), c.fs);
      } else if !w.value {
        assert MoveWriteOn(fs, base, s, d) == Dirs.Change(Fail(PathNotWritable(d)), c.fs);
      }
    }
  }

  /** After a successful moveTo the source was a readable, writable file and
      nothing was at the destination. When the source's directory is
      writable, the node has moved: the source is gone and the destination
      holds it, bytes and permissions; no other node that was there changes. */
  lemma MoveEffect(fs: Os.Fs, base: string, s: string, d: string)
    requires Os.WellFormed(fs) && ValidBase(base) && CanonicalLoc(s) && s != "" && CanonicalLoc(d) && d != ""
    requires MoveToOn(fs, base, s, d).outcome.Pass?
    ensures s in fs.nodes && fs.nodes[s].FileNode? && fs.nodes[s].readable && fs.nodes[s].writable
    ensures d !in fs.nodes
    ensures var fs' := MoveToOn(fs, base, s, d).fs;
      && Os.WellFormed(fs')
      && (forall k :: k in fs.nodes && k != s ==> k in fs'.nodes && fs'.nodes[k] == fs.nodes[k])
      && (Os.WritableDir(fs, ParentLoc(s)) ==> s !in fs'.nodes && d in fs'.nodes && fs'.nodes[d] == fs.nodes[s])
      && (s in fs.nodes && !Os.WritableDir(fs, ParentLoc(s)) ==>
            s in fs'.nodes && fs'.nodes[s] == fs.nodes[s] && d !in fs'.nodes)
      && AddsOnlyFor(fs, fs', d)
  {
    MoveChecksPass(fs, base, s, d);
    assert MoveToOn(fs, base, s, d) == MoveWriteOn(fs, base, s, d);
    MoveWritePasses(fs, base, s, d);
    var c := Dirs.TouchOn(fs, base, ParentDir(d, base));
    assert MoveToOn(fs, base, s, d).fs == Os.Rename(c.fs, s, d).fs;
    MoveTarget(fs, base, d);
    RenameMoves(fs, c.fs, s, d);
    ParentTouchAdds(fs, base, d);
    AddsOnlyAt(fs, c.fs, Os.Rename(c.fs, s, d).fs, d);
    assert ParentLoc(s) in fs.nodes && c.fs.nodes[ParentLoc(s)] == fs.nodes[ParentLoc(s)];
  }

  /** Once touching the destination's directory succeeded and found a missing
      destination writable, that directory is there and writable. */
  lemma MoveTarget(fs: Os.Fs, base: string, d: string)
    requires Os.WellFormed(fs) && ValidBase(base) && CanonicalLoc(d) && d != "" && d !in fs.nodes
    requires var c := Dirs.TouchOn(fs, base, ParentDir(d, base));
      c.outcome.Pass? && FileWritable(c.fs, base, d) == Ok(true)
    ensures var c := Dirs.TouchOn(fs, base, ParentDir(d, base));
      && Os.WellFormed(c.fs) && Os.Keeps(fs, c.fs) && d !in c.fs.nodes && Os.WritableDir(c.fs, ParentLoc(d))
  {
    MoveTargetTouched(fs, base, d);
    MoveTargetWritable(Dirs.TouchOn(fs, base, ParentDir(d, base)).fs, base, d);
  }

  lemma MoveTargetTouched(fs: Os.Fs, base: string, d: string)
    requires Os.WellFormed(fs) && ValidBase(base) && CanonicalLoc(d) && d != "" && d !in fs.nodes
    ensures var c := Dirs.TouchOn(fs, base, ParentDir(d, base));
      && Os.WellFormed(c.fs) && Os.Keeps(fs, c.fs) && d !in c.fs.nodes
      && (c.outcome.Pass? ==> ParentLoc(d) in c.fs.nodes && c.fs.nodes[ParentLoc(d)].DirNode?)
  {
    FileAt(d, base);
    Dirs.TouchKeeps(fs, base, ParentDir(d, base));
    Os.AboveNotLonger(d, ParentLoc(d));
    Dirs.TouchMakesDir(fs, base, ParentLoc(d));
  }

  /** A missing file that is_writable accepts sits in a writable directory,
      once that directory exists. */
  lemma MoveTargetWritable(t: Os.Fs, base: string, d: string)
    requires Os.WellFormed(t) && ValidBase(base) && CanonicalLoc(d) && d != "" && d !in t.nodes
    requires ParentLoc(d) in t.nodes && t.nodes[ParentLoc(d)].DirNode?
    requires FileWritable(t, base, d) == Ok(true)
    ensures Os.WritableDir(t, ParentLoc(d))
  {
    FileWritableMissing(t, base, d);
    assert Os.NearestExisting(t.nodes, ParentLoc(d)) == ParentLoc(d);
  }

  /** rename after moveTo's checks: the tree stays well formed, and the node
      moves when both directories are writable. */
  lemma RenameMoves(fs: Os.Fs, t: Os.Fs, s: string, d: string)
    requires Os.WellFormed(t) && Os.Keeps(fs, t) && CanonicalLoc(s) && s != "" && CanonicalLoc(d) && d != ""
    requires s in fs.nodes && fs.nodes[s].FileNode? && d !in t.nodes
    requires Os.WritableDir(t, ParentLoc(d))
    ensures var fs' := Os.Rename(t, s, d).fs;
      && Os.WellFormed(fs')
      && (forall k :: k in fs.nodes && k != s ==> k in fs'.nodes && fs'.nodes[k] == fs.nodes[k])
      && (Os.WritableDir(fs, ParentLoc(s)) ==> s !in fs'.nodes && d in fs'.nodes && fs'.nodes[d] == fs.nodes[s])
      && (forall k :: k in fs'.nodes && k != d ==> k in t.nodes && fs'.nodes[k] == t.nodes[k])
      && (!Os.WritableDir(t, ParentLoc(s)) ==> fs' == t)
  {
    Os.ResolveCanonical(s);
    Os.ResolveCanonical(d);
    Os.RenameKeepsWellFormed(t, s, d);
    Os.RenameFrame(t, s, d);
    if !Os.WritableDir(t, ParentLoc(s)) {
      Os.RenameFromReadOnly(t, s, d);
    }
  }
}
