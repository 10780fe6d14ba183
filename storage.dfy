/** Upload storage (`server/lib/storage.ts`). The local file system is a map
    from normalised absolute paths to file contents, and `path.resolve` is
    the POSIX segment normalisation. */
module Storage {
  import opened Common

  type Byte = bv8

  /** A normalised absolute path, as its segments from the root. */
  type Path = seq<string>

  predicate IsSegment(s: string)
  {
    s != [] && s != "." && s != ".." && !HasChar(s, '/')
  }

  predicate Normalized(p: Path)
  {
    forall i :: 0 <= i < |p| ==> IsSegment(p[i])
  }

  /** The text of a path; the root is `/`. */
  function PathText(p: Path): string
  {
    if p == [] then "/" else Slashed(p)
  }

  /** `/a/b/c` for `[a, b, c]`. */
  function Slashed(p: Path): (r: string)
    ensures p == [] <==> r == []
    ensures r != [] ==> r[0] == '/'
  {
    if p == [] then [] else "/" + p[0] + Slashed(p[1..])
  }

  // ---------------------------------------------------------------------
  // `path.resolve`, `path.extname`

  /** One piece of a relative path applied to a directory: empty pieces and
      `.` stay put, `..` goes up (and stays at the root). */
  function Step(dir: Path, piece: string): (r: Path)
    requires Normalized(dir) && !HasChar(piece, '/')
    ensures Normalized(r)
    ensures IsSegment(piece) ==> r == dir + [piece]
    ensures piece == ".." ==> r == if dir == [] then [] else dir[..|dir| - 1]
    ensures piece == [] || piece == "." ==> r == dir
  {
    if piece == [] || piece == "." then dir
    else if piece == ".." then (if dir == [] then [] else dir[..|dir| - 1])
    else dir + [piece]
  }

  function Normalize(dir: Path, pieces: seq<string>): (r: Path)
    requires Normalized(dir) && forall i :: 0 <= i < |pieces| ==> !HasChar(pieces[i], '/')
    ensures Normalized(r)
    decreases |pieces|
  {
    if pieces == [] then dir else Normalize(Step(dir, pieces[0]), pieces[1..])
  }

  /** `path.resolve(base, rel)` for an absolute `base`: an absolute `rel`
      starts again from the root. */
  function Resolve(base: Path, rel: string): (r: Path)
    requires Normalized(base)
    ensures Normalized(r)
  {
    SplitPieces(rel, '/');
    Normalize(if StartsWith(rel, "/") then [] else base, Split(rel, '/'))
  }

  lemma NormalizeOne(dir: Path, piece: string)
    requires Normalized(dir) && !HasChar(piece, '/')
    ensures Normalize(dir, [piece]) == Step(dir, piece)
  {
    assert [piece][1..] == [];
  }

  /** Resolving the empty text gives the base back. */
  lemma ResolveEmpty(base: Path)
    requires Normalized(base)
    ensures Resolve(base, "") == base
  {
    assert Split("", '/') == [""];
    NormalizeOne(base, "");
  }

  /** Resolving a single segment descends into it. */
  lemma ResolveSegment(base: Path, name: string)
    requires Normalized(base) && IsSegment(name)
    ensures Resolve(base, name) == base + [name]
  {
    assert name[0] != '/';
    assert Split(name, '/') == [name];
    NormalizeOne(base, name);
  }

  /** `name` without its trailing slashes. */
  function TrimSlashes(name: string): (r: string)
    ensures r == [] || r[|r| - 1] != '/'
    ensures |r| <= |name| && r == name[..|r|]
  {
    if name != [] && name[|name| - 1] == '/' then TrimSlashes(name[..|name| - 1]) else name
  }

  /** The last segment of a path text. */
  function Basename(name: string): (r: string)
    ensures !HasChar(r, '/')
    ensures |r| <= |name| && r == name[|name| - |r|..]
  {
    var j := LastIndexOf(name, '/');
    name[j + 1..]
  }

  /** `path.extname` (POSIX): from the last dot of the last segment, unless
      that dot opens the segment or the segment is `..`. */
  function Extname(name: string): (r: string)
    ensures r == [] || (r[0] == '.' && !HasChar(r, '/') && !HasChar(r[1..], '.'))
  {
    var b := Basename(TrimSlashes(name));
    var j := LastIndexOf(b, '.');
    if j <= 0 || b == ".." then []
    else
      ExtensionFrom(b, j);
      b[j..]
  }

  /** The text from the last dot of a segment is an extension. */
  lemma ExtensionFrom(b: string, j: nat)
    requires j < |b| && b[j] == '.' && !HasChar(b, '/')
    requires forall k :: j < k < |b| ==> b[k] != '.'
    ensures var r := b[j..]; r[0] == '.' && !HasChar(r, '/') && !HasChar(r[1..], '.')
  {
    NoCharFrom(b, j, '/');
    NoCharFrom(b, j + 1, '.');
    assert b[j..][1..] == b[j + 1..];
  }

  // ---------------------------------------------------------------------
  // The containment check

  /** `p` lies strictly below the directory `d`. */
  predicate StrictlyBelow(d: Path, p: Path)
  {
    |d| < |p| && p[..|d|] == d
  }

  /** Comparing `/b...` against `/a/...` segment by segment. */
  lemma SegmentAlign(a: string, x: string, b: string, y: string)
    requires !HasChar(a, '/') && !HasChar(b, '/')
    requires x != [] && x[0] == '/' && (y == [] || y[0] == '/')
    ensures StartsWith("/" + b + y, "/" + a + x) <==> a == b && StartsWith(y, x)
  {
    var s := "/" + b + y;
    var t := "/" + a + x;
    if StartsWith(s, t) {
      assert forall i :: 0 <= i < |t| ==> s[i] == t[i];
      assert forall i :: 0 <= i < |b| ==> s[1 + i] == b[i];
      assert forall i :: 0 <= i < |a| ==> t[1 + i] == a[i];
      assert t[1 + |a|] == '/';
      assert y != [] ==> s[1 + |b|] == '/';
      assert |a| == |b|;
      assert a == t[1..1 + |a|] == s[1..1 + |b|] == b;
      assert t[1 + |a|..] == x && s[1 + |b|..] == y;
      assert y[..|x|] == s[..|t|][1 + |a|..];
    }
    if a == b && StartsWith(y, x) {
      assert s[..|t|] == "/" + b + y[..|x|];
    }
  }

  /** The text test `p startsWith d + "/"` is exactly `p` lying strictly below `d`. */
  lemma {:induction false} SlashedBelow(d: Path, p: Path)
    requires Normalized(d) && Normalized(p) && d != []
    ensures StartsWith(Slashed(p), Slashed(d) + "/") <==> StrictlyBelow(d, p)
    decreases |d|
  {
    if p != [] {
      var x := Slashed(d[1..]) + "/";
      var y := Slashed(p[1..]);
      assert Slashed(d) + "/" == "/" + d[0] + x;
      SegmentAlign(d[0], x, p[0], y);
      if |d| == 1 {
        assert StrictlyBelow(d, p) <==> d[0] == p[0] && p[1..] != [];
      } else {
        SlashedBelow(d[1..], p[1..]);
        assert StrictlyBelow(d, p) <==> d[0] == p[0] && StrictlyBelow(d[1..], p[1..]) by {
          if d[0] == p[0] && |d| < |p| {
            assert p[..|d|] == [p[0]] + p[1..][..|d| - 1];
            assert d == [d[0]] + d[1..];
          }
        }
      }
    }
  }

  /** The same on the rendered paths, the root included. */
  lemma BelowIff(d: Path, p: Path)
    requires Normalized(d) && Normalized(p) && d != []
    ensures StartsWith(PathText(p), PathText(d) + "/") <==> StrictlyBelow(d, p)
  {
    SlashedBelow(d, p);
    if p == [] {
      assert |Slashed(d) + "/"| > 1;
    }
  }

  // ---------------------------------------------------------------------
  // Local storage

  datatype StorageError =
    | UnlinkFailed(code: string)  // an `unlink` error other than ENOENT
    | NotImplemented              // "S3 storage not implemented yet"

  /** `randomUUID()`: 36 characters of hexadecimal digits and dashes. */
  predicate IsUuid(id: string)
  {
    |id| == 36 && forall i :: 0 <= i < |id| ==> id[i] in "0123456789abcdef-"
  }

  /** The URL `upload` returns for a generated id and the original name. */
  function UploadUrl(id: string, fileName: string): (r: string)
    ensures StartsWith(r, "/uploads/") && r[9..] == id + Extname(fileName)
  {
    var prefix := "/uploads/";
    var name := id + Extname(fileName);
    assert |prefix| == 9;
    assert (prefix + name)[..9] == prefix && (prefix + name)[9..] == name;
    prefix + name
  }

  /** The file `delete(fileUrl)` unlinks, if any: URLs outside `/uploads/`
      and paths that do not resolve strictly below `uploadDir` have none. */
  function DeleteTarget(uploadDir: Path, fileUrl: string): (r: Option<Path>)
    requires Normalized(uploadDir)
    ensures r.Some? ==> StrictlyBelow(uploadDir, r.value) && Normalized(r.value)
  {
    if !StartsWith(fileUrl, "/uploads/") then None
    else
      var p := Resolve(uploadDir, fileUrl[9..]);
      if StrictlyBelow(uploadDir, p) then Some(p) else None
  }

  /** `getPublicUrl` */
  function GetPublicUrl(path: string): string
  {
    path
  }

  class LocalStorage {
    /** `resolve(process.cwd(), "public", "uploads")` */
    const uploadDir: Path
    var files: map<Path, seq<Byte>>

    predicate Valid()
    {
      Normalized(uploadDir) && |uploadDir| >= 2
    }

    constructor (cwd: Path, files0: map<Path, seq<Byte>>)
      requires Normalized(cwd)
      ensures Valid()
      ensures uploadDir == cwd + ["public", "uploads"] && files == files0
    {
      uploadDir := cwd + ["public", "uploads"];
      files := files0;
    }

    /** `upload`: writes the contents under a fresh id that keeps the
        original name's extension, and returns its URL. */
    method Upload(file: seq<Byte>, fileName: string, id: string) returns (url: string)
      requires Valid() && IsUuid(id)
      modifies this
      ensures url == UploadUrl(id, fileName)
      ensures files == old(files)[uploadDir + [id + Extname(fileName)] := file]
      ensures DeleteTarget(uploadDir, GetPublicUrl(url)) == Some(uploadDir + [id + Extname(fileName)])
    {
      var uniqueName := id + Extname(fileName);
      files := files[uploadDir + [uniqueName] := file];
      url := "/uploads/" + uniqueName;
      UploadUrlDeletable(uploadDir, id, fileName);
    }

    /** `delete`: unlinks the target, if any. A missing file is accepted;
        `fault` is the error the file system raises on an existing file. */
    method Delete(fileUrl: string, fault: Option<string>) returns (r: Result<(), StorageError>)
      requires Valid()
      modifies this
      ensures DeleteTarget(uploadDir, fileUrl).None? ==> r == Ok(()) && files == old(files)
      ensures DeleteTarget(uploadDir, fileUrl).Some? ==>
        var target := DeleteTarget(uploadDir, fileUrl).value;
        if target !in old(files) then r == Ok(()) && files == old(files)
        else if fault.Some? && fault.value != "ENOENT" then r == Err(UnlinkFailed(fault.value)) && files == old(files)
        else if fault.Some? then r == Ok(()) && files == old(files)
        else r == Ok(()) && files == old(files) - {target}
    {
      if !StartsWith(fileUrl, "/uploads/") {
        return Ok(());
      }
      var relative := fileUrl[9..];
      var base := Resolve(uploadDir, "");
      ResolveEmpty(uploadDir);
      var filePath := Resolve(uploadDir, relative);
      BelowIff(base, filePath);
      if !StartsWith(PathText(filePath), PathText(base) + "/") {
        return Ok(());
      }
      if filePath !in files {
        return Ok(());  // ENOENT
      }
      if fault.Some? {
        if fault.value == "ENOENT" {
          return Ok(());
        }
        return Err(UnlinkFailed(fault.value));
      }
      files := files - {filePath};
      r := Ok(());
    }
  }

  /** `S3Storage.upload`: not implemented, always fails. */
  function S3Upload(file: seq<Byte>, fileName: string): (r: Result<string, StorageError>)
    ensures r.Err?
  {
    Err(NotImplemented)
  }

  /** `S3Storage.delete`: not implemented, always fails. */
  function S3Delete(fileUrl: string): (r: Result<(), StorageError>)
    ensures r.Err?
  {
    Err(NotImplemented)
  }

  // ---------------------------------------------------------------------
  // Properties

  /** A generated name is a single segment of the upload directory. */
  lemma UniqueNameIsSegment(id: string, fileName: string)
    requires IsUuid(id)
    ensures IsSegment(id + Extname(fileName))
  {
    var n := id + Extname(fileName);
    forall i | 0 <= i < |n|
      ensures n[i] != '/'
    {
      if i < |id| {
        assert n[i] == id[i];
      } else {
        assert n[i] == Extname(fileName)[i - |id|];
      }
    }
  }

  /** The URL `upload` returns names, for `delete`, exactly the file it wrote. */
  lemma UploadUrlDeletable(uploadDir: Path, id: string, fileName: string)
    requires Normalized(uploadDir) && IsUuid(id)
    ensures DeleteTarget(uploadDir, GetPublicUrl(UploadUrl(id, fileName))) == Some(uploadDir + [id + Extname(fileName)])
  {
    var name := id + Extname(fileName);
    UniqueNameIsSegment(id, fileName);
    ResolveSegment(uploadDir, name);
    assert (uploadDir + [name])[..|uploadDir|] == uploadDir;
  }

  /** `/uploads/` itself resolves to the directory and is never removed. */
  lemma UploadDirNeverRemoved(uploadDir: Path)
    requires Normalized(uploadDir)
    ensures DeleteTarget(uploadDir, "/uploads/") == None
  {
    assert "/uploads/"[9..] == [];
    ResolveEmpty(uploadDir);
  }

  /** Climbing out with `..` never reaches below the directory. */
  lemma DotDotIgnored(uploadDir: Path, name: string)
    requires Normalized(uploadDir) && uploadDir != [] && IsSegment(name)
    ensures DeleteTarget(uploadDir, "/uploads/../" + name) == None
  {
    var url := "/uploads/../" + name;
    assert url[..9] == "/uploads/";
    assert url[9..] == ".." + "/" + name;
    SplitCons("..", name, '/');
    assert Split(name, '/') == [name];
    var up := Step(uploadDir, "..");
    assert !StartsWith(url[9..], "/");
    assert ["..", name][1..] == [name];
    assert Resolve(uploadDir, url[9..]) == Normalize(up, [name]);
    NormalizeOne(up, name);
    assert |up + [name]| == |uploadDir|;
  }
}
