/**
 * The name under which `save_profile_picture` stores an upload: `splitext` of the client's
 * file name, a random hex token in front of its extension, joined under `uploads`. The
 * token is a parameter (it comes from `uuid4().hex`); writing the bytes is not modelled.
 * The separator depends on the host's path flavour, as Python's `os.path` does.
 */
module Uploads {

  /** `posixpath` (separator `/`) or `ntpath` (separator `\`, alternative `/`). */
  datatype PathFlavour = Posix | Windows

  /** `os.sep`. */
  function Sep(f: PathFlavour): char {
    if f == Posix then '/' else '\\'
  }

  /** The characters `os.path` treats as separators: `os.sep` and `os.altsep`. */
  function Seps(f: PathFlavour): set<char> {
    if f == Posix then {'/'} else {'\\', '/'}
  }

  /** `max(p.rfind(c) for c in cs)`: the last position holding one of `cs`, or -1. */
  function LastIndexOf(p: string, cs: set<char>): (i: int)
    ensures -1 <= i < |p|
    ensures 0 <= i ==> p[i] in cs
    ensures forall j :: i < j < |p| ==> p[j] !in cs
  {
    if p == [] then -1
    else if p[|p| - 1] in cs then |p| - 1
    else LastIndexOf(p[..|p| - 1], cs)
  }

  /** Every character of `p[lo..hi]` is a dot. */
  predicate AllDots(p: string, lo: nat, hi: int)
    requires hi <= |p|
  {
    forall j :: lo <= j < hi ==> p[j] == '.'
  }

  /**
   * `os.path.splitext(p)`: the extension starts at the last dot after the last separator,
   * unless every character between that separator and that dot is a dot too (`.bashrc`).
   */
  function SplitExt(f: PathFlavour, p: string): (r: (string, string))
    ensures r.0 + r.1 == p
    ensures r.1 == [] || r.1[0] == '.'
    ensures forall i :: 0 <= i < |r.1| ==> r.1[i] !in Seps(f)
  {
    var sepIndex := LastIndexOf(p, Seps(f));
    var dotIndex := LastIndexOf(p, {'.'});
    if dotIndex > sepIndex && !AllDots(p, sepIndex + 1, dotIndex) then
      (p[..dotIndex], p[dotIndex..])
    else
      (p, [])
  }

  /** A name whose last component has no dot has no extension. */
  lemma NoDotNoExtension(f: PathFlavour, p: string)
    requires forall j :: LastIndexOf(p, Seps(f)) < j < |p| ==> p[j] != '.'
    ensures SplitExt(f, p) == (p, [])
  {
  }

  /** A name whose last component is dots and then a dot-free rest (`.bashrc`, `..x`) has no extension. */
  lemma LeadingDotsNoExtension(f: PathFlavour, p: string, k: int)
    requires LastIndexOf(p, Seps(f)) < k < |p|
    requires forall j :: LastIndexOf(p, Seps(f)) < j <= k ==> p[j] == '.'
    requires forall j :: k < j < |p| ==> p[j] != '.'
    ensures SplitExt(f, p) == (p, [])
  {
    var dotIndex := LastIndexOf(p, {'.'});
    assert p[k] == '.';
    assert dotIndex == k;
  }

  /** The extension starts at the last dot when a non-dot precedes it in the last component. */
  lemma ExtensionFromLastDot(f: PathFlavour, p: string, d: nat)
    requires LastIndexOf(p, Seps(f)) < d < |p| && p[d] == '.'
    requires forall j :: d < j < |p| ==> p[j] != '.' && p[j] !in Seps(f)
    requires exists j :: LastIndexOf(p, Seps(f)) < j < d && p[j] != '.'
    ensures SplitExt(f, p) == (p[..d], p[d..])
  {
    assert LastIndexOf(p, {'.'}) == d;
  }

  /** `os.path.join(a, b)` for two components (drive letters are not modelled). */
  function Join(f: PathFlavour, a: string, b: string): (r: string)
    ensures |b| <= |r| && r[|r| - |b|..] == b
    ensures (b == [] || b[0] !in Seps(f)) ==> |a| <= |r| && r[..|a|] == a
  {
    if b != [] && b[0] in Seps(f) then b
    else if a == [] || a[|a| - 1] in Seps(f) then a + b
    else a + [Sep(f)] + b
  }

  /** The directory uploads are saved into. */
  const UploadDir: string := "uploads"

  /** What `uuid.uuid4().hex` returns: 32 lower-case hexadecimal digits. */
  predicate IsHexToken(t: string) {
    |t| == 32 && forall i :: 0 <= i < |t| ==> t[i] in "0123456789abcdef"
  }

  /** `f"{token}{ext}"` with `ext` from `splitext` of the client's file name. */
  function UploadFileName(f: PathFlavour, token: string, clientName: string): (name: string)
    ensures |token| <= |name| && name[..|token|] == token
  {
    token + SplitExt(f, clientName).1
  }

  /** The path `save_profile_picture` writes to and returns. */
  function UploadPath(f: PathFlavour, token: string, clientName: string): (path: string)
    requires IsHexToken(token)
    ensures path == UploadDir + [Sep(f)] + token + SplitExt(f, clientName).1
  {
    var name := UploadFileName(f, token, clientName);
    assert name[0] == token[0] && name[0] !in Seps(f);
    assert UploadDir[|UploadDir| - 1] == 's';
    Join(f, UploadDir, name)
  }

  /** The file name is the token followed by a suffix of the client's name that is empty or starts with a dot. */
  lemma FileNameParts(f: PathFlavour, token: string, clientName: string)
    ensures var name := UploadFileName(f, token, clientName);
      && name[..|token|] == token
      && var ext := name[|token|..];
      && (ext == [] || ext[0] == '.')
      && |ext| <= |clientName| && clientName[|clientName| - |ext|..] == ext
  {
    var (root, ext) := SplitExt(f, clientName);
    var name := UploadFileName(f, token, clientName);
    assert name[..|token|] == token && name[|token|..] == ext;
    assert clientName == root + ext;
    assert clientName[|root|..] == ext;
  }

  /** Without an extension the stored file name is the token alone. */
  lemma NoExtensionGivesToken(f: PathFlavour, token: string, clientName: string)
    requires forall j :: LastIndexOf(clientName, Seps(f)) < j < |clientName| ==> clientName[j] != '.'
    ensures UploadFileName(f, token, clientName) == token
  {
    NoDotNoExtension(f, clientName);
  }

  /**
   * The path has exactly one separator, right after `uploads`, and the file name after it is
   * at least the 32 token characters: the client's name cannot move the file out of the directory.
   */
  lemma UploadPathStaysInside(f: PathFlavour, token: string, clientName: string)
    requires IsHexToken(token)
    ensures var path := UploadPath(f, token, clientName);
      && path[..|UploadDir|] == UploadDir
      && |path| >= |UploadDir| + 33
      && forall i :: 0 <= i < |path| ==> (path[i] in Seps(f) <==> i == |UploadDir|)
  {
    var ext := SplitExt(f, clientName).1;
    var path := UploadPath(f, token, clientName);
    forall i | 0 <= i < |path| ensures path[i] in Seps(f) <==> i == |UploadDir| {
      if i < |UploadDir| {
        assert path[i] == UploadDir[i];
      } else if i == |UploadDir| {
        assert path[i] == Sep(f);
      } else if i < |UploadDir| + 1 + |token| {
        assert path[i] == token[i - |UploadDir| - 1];
      } else {
        assert path[i] == ext[i - |UploadDir| - 1 - |token|];
      }
    }
  }

  /** A typical upload: `photo.jpg` is stored as `uploads/<token>.jpg`. */
  lemma PhotoJpgExample(f: PathFlavour, token: string)
    requires IsHexToken(token)
    ensures UploadPath(f, token, "photo.jpg") == UploadDir + [Sep(f)] + token + ".jpg"
  {
    var p := "photo.jpg";
    assert LastIndexOf(p, Seps(f)) == -1;
    assert p[0] != '.';
    ExtensionFromLastDot(f, p, 5);
    assert p[5..] == ".jpg";
  }
}
