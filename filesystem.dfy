/**
 * The part of the operating system's filesystem the installer touches, as a
 * value: a map from paths to nodes. It gives meaning to the three calls the
 * extraction loop makes (src/main.rs:262-276): `PathBuf::push`,
 * `fs::create_dir_all`, and `OpenOptions::new().write(true).create(true)`
 * followed by a copy of the entry's bytes.
 *
 * Paths follow Unix conventions: '/' separates components, empty
 * components vanish, and `.` and `..` are kept as ordinary components (the
 * model does not resolve them).
 */
module Fs {
  import opened Base

  const Slash: byte := 0x2F

  /** A path: whether it starts at the root, and its non-empty components.
      `Path(true, [])` is the root and `Path(false, [])` the empty relative
      path; both always exist as directories. */
  datatype Path = Path(absolute: bool, parts: seq<seq<byte>>)

  datatype Node = Dir | File(bytes: seq<byte>)

  type FileSystem = map<Path, Node>

  /** Length of the leading run of non-separator bytes. */
  function SegmentLength(b: seq<byte>): (n: nat)
    ensures n <= |b|
    ensures forall k :: 0 <= k < n ==> b[k] != Slash
    ensures n < |b| ==> b[n] == Slash
  {
    if b == [] || b[0] == Slash then 0 else 1 + SegmentLength(b[1..])
  }

  /** The components of a path string. */
  function Components(b: seq<byte>): (cs: seq<seq<byte>>)
    ensures forall i :: 0 <= i < |cs| ==> cs[i] != [] && Slash !in cs[i]
    decreases |b|
  {
    if b == [] then []
    else if b[0] == Slash then Components(b[1..])
    else
      var n := SegmentLength(b);
      assert forall k :: 0 <= k < n ==> b[..n][k] == b[k];
      [b[..n]] + Components(b[n..])
  }

  /** A segment without separators runs to its end. */
  lemma {:induction false} SegmentLengthOfSegment(a: seq<byte>)
    requires Slash !in a
    ensures SegmentLength(a) == |a|
    decreases |a|
  {
    if a != [] {
      SegmentLengthOfSegment(a[1..]);
    }
  }

  /** A separator after a ends the leading segment of a where a's own one
      ends. */
  lemma {:induction false} SegmentLengthBeforeSlash(a: seq<byte>, b: seq<byte>)
    ensures SegmentLength(a + [Slash] + b) == SegmentLength(a)
    decreases |a|
  {
    if a != [] && a[0] != Slash {
      assert (a + [Slash] + b)[1..] == a[1..] + [Slash] + b;
      SegmentLengthBeforeSlash(a[1..], b);
    }
  }

  /** A non-empty name without separators is a single component. */
  lemma SingleComponent(a: seq<byte>)
    requires a != [] && Slash !in a
    ensures Components(a) == [a]
  {
    SegmentLengthOfSegment(a);
    assert a[..|a|] == a;
    assert a[|a|..] == [];
  }

  /** Components are read off left to right: a separator splits a name into
      the components before it followed by those after it. */
  lemma {:induction false} ComponentsSplit(a: seq<byte>, b: seq<byte>)
    ensures Components(a + [Slash] + b) == Components(a) + Components(b)
    decreases |a|
  {
    var c := a + [Slash] + b;
    if a == [] {
      assert c[1..] == b;
    } else if a[0] == Slash {
      assert c[1..] == a[1..] + [Slash] + b;
      ComponentsSplit(a[1..], b);
    } else {
      var n := SegmentLength(a);
      SegmentLengthBeforeSlash(a, b);
      assert c[..n] == a[..n];
      assert c[n..] == a[n..] + [Slash] + b;
      ComponentsSplit(a[n..], b);
    }
  }

  /** `Path::new` on a byte string. */
  function ParsePath(b: seq<byte>): Path
  {
    Path(|b| > 0 && b[0] == Slash, Components(b))
  }

  /** `PathBuf::push`: an absolute path replaces the base, a relative one is
      appended to it. */
  function Join(base: Path, rel: Path): Path
  {
    if rel.absolute then rel else Path(base.absolute, base.parts + rel.parts)
  }

  /** `Path::parent`: none for the root and for the empty path. */
  function Parent(p: Path): (r: Option<Path>)
    ensures r.Some? <==> p.parts != []
    ensures r.Some? ==> Join(r.value, Path(false, [p.parts[|p.parts| - 1]])) == p
  {
    if p.parts == [] then None else Some(Path(p.absolute, p.parts[..|p.parts| - 1]))
  }

  /** The first k components of p. */
  function Prefix(p: Path, k: nat): Path
    requires k <= |p.parts|
  {
    Path(p.absolute, p.parts[..k])
  }

  predicate IsDir(fs: FileSystem, p: Path)
  {
    p.parts == [] || (p in fs && fs[p] == Dir)
  }

  predicate IsFile(fs: FileSystem, p: Path)
  {
    p in fs && fs[p].File?
  }

  /** q is p or one of the directories above it, the root excluded. */
  predicate IsAncestor(q: Path, p: Path)
  {
    q.absolute == p.absolute && 1 <= |q.parts| <= |p.parts| && q.parts == p.parts[..|q.parts|]
  }

  /** `fs::create_dir_all`: the call succeeds when every prefix of the path
      is a directory or absent, and then the absent ones are made; a regular
      file at any prefix fails it. The order in which the library probes the
      prefixes does not change this outcome. */
  function CreateDirAll(fs: FileSystem, p: Path): Option<FileSystem>
  {
    MakeDirs(fs, p, 0)
  }

  /** The walk of `create_dir_all` below the first k components. */
  function MakeDirs(fs: FileSystem, p: Path, k: nat): Option<FileSystem>
    requires k <= |p.parts|
    decreases |p.parts| - k
  {
    if k == |p.parts| then Some(fs)
    else
      var q := Prefix(p, k + 1);
      if IsFile(fs, q) then None else MakeDirs(fs[q := Dir], p, k + 1)
  }

  /** What the walk does: it fails exactly when a component below the first
      k is a regular file; otherwise all those components are directories,
      regular files are untouched, directories stay directories, and
      nothing outside p's ancestry appears. */
  lemma {:induction false} MakeDirsEffect(fs: FileSystem, p: Path, k: nat)
    requires k <= |p.parts|
    ensures MakeDirs(fs, p, k).None? <==> exists j :: k < j <= |p.parts| && IsFile(fs, Prefix(p, j))
    ensures MakeDirs(fs, p, k).Some? ==>
      var f := MakeDirs(fs, p, k).value;
      && (forall j :: k < j <= |p.parts| ==> IsDir(f, Prefix(p, j)))
      && (forall q :: IsFile(f, q) <==> IsFile(fs, q))
      && (forall q :: IsFile(fs, q) ==> f[q] == fs[q])
      && (forall q :: IsDir(fs, q) ==> IsDir(f, q))
      && (forall q :: q in f ==> q in fs || IsAncestor(q, p))
    decreases |p.parts| - k
  {
    if k < |p.parts| {
      var q := Prefix(p, k + 1);
      if !IsFile(fs, q) {
        var g := fs[q := Dir];
        MakeDirsEffect(g, p, k + 1);
        assert forall j :: k + 1 < j <= |p.parts| ==> (IsFile(g, Prefix(p, j)) <==> IsFile(fs, Prefix(p, j)));
      }
    }
  }

  /** When every component below the first k is already a directory, the
      walk changes nothing. */
  lemma {:induction false} MakeDirsOnDirs(fs: FileSystem, p: Path, k: nat)
    requires k <= |p.parts|
    requires forall j :: k < j <= |p.parts| ==> IsDir(fs, Prefix(p, j))
    ensures MakeDirs(fs, p, k) == Some(fs)
    decreases |p.parts| - k
  {
    if k < |p.parts| {
      var q := Prefix(p, k + 1);
      assert IsDir(fs, q);
      assert fs[q := Dir] == fs;
      MakeDirsOnDirs(fs, p, k + 1);
    }
  }

  /** What `create_dir_all` guarantees: it fails exactly when a regular file
      is in the way; when it succeeds p and all its ancestors are
      directories, regular files are untouched, and nothing outside p's
      ancestry appears. */
  lemma CreateDirAllEffect(fs: FileSystem, p: Path)
    ensures CreateDirAll(fs, p).None? <==> exists j :: 1 <= j <= |p.parts| && IsFile(fs, Prefix(p, j))
    ensures CreateDirAll(fs, p).Some? ==>
      var f := CreateDirAll(fs, p).value;
      && IsDir(f, p)
      && (forall j :: 1 <= j <= |p.parts| ==> IsDir(f, Prefix(p, j)))
      && (forall q :: IsFile(f, q) <==> IsFile(fs, q))
      && (forall q :: IsFile(fs, q) ==> f[q] == fs[q])
      && (forall q :: IsDir(fs, q) ==> IsDir(f, q))
      && (forall q :: q in f ==> q in fs || IsAncestor(q, p))
  {
    MakeDirsEffect(fs, p, 0);
    if |p.parts| > 0 {
      assert p == Prefix(p, |p.parts|);
    }
  }

  /** The bytes of a file after `data` is written at offset 0 without
      truncation: the written bytes first, and whatever the prior content had
      beyond them after. */
  function Overwrite(prior: seq<byte>, data: seq<byte>): seq<byte>
  {
    if |prior| <= |data| then data else data + prior[|data|..]
  }

  /** The file is as long as the longer of the two contents, and each byte
      comes from the written data where there is one, from the prior content
      otherwise. */
  lemma OverwriteLayout(prior: seq<byte>, data: seq<byte>)
    ensures var r := Overwrite(prior, data);
      && |r| == (if |prior| <= |data| then |data| else |prior|)
      && forall k :: 0 <= k < |r| ==> r[k] == if k < |data| then data[k] else prior[k]
  {
  }

  /** The content at p before a write, empty for a file that does not exist. */
  function Existing(fs: FileSystem, p: Path): seq<byte>
  {
    if IsFile(fs, p) then fs[p].bytes else []
  }

  /** `OpenOptions::new().write(true).create(true).open(p)` and a copy of
      `data`: fails when p is a directory or its parent is not one. */
  function WriteFile(fs: FileSystem, p: Path, data: seq<byte>): Option<FileSystem>
  {
    if p.parts == [] || IsDir(fs, p) then None
    else if !IsDir(fs, Parent(p).value) then None
    else Some(fs[p := File(Overwrite(Existing(fs, p), data))])
  }

  /** When the write succeeds p holds `data` over its prior content and no
      other path changes; it fails exactly when p is a directory or its
      parent is not one. */
  lemma WriteFileEffect(fs: FileSystem, p: Path, data: seq<byte>)
    ensures WriteFile(fs, p, data).Some? <==> p.parts != [] && !IsDir(fs, p) && IsDir(fs, Parent(p).value)
    ensures WriteFile(fs, p, data).Some? ==>
      var f := WriteFile(fs, p, data).value;
      && IsFile(f, p) && f[p].bytes == Overwrite(Existing(fs, p), data)
      && (forall q :: q != p ==> (q in f <==> q in fs))
      && (forall q :: q in fs && q != p ==> f[q] == fs[q])
  {
  }

  // ---------------------------------------------------------------------

  /** Writing the same bytes twice leaves what writing once left. */
  lemma OverwriteIdempotent(prior: seq<byte>, data: seq<byte>)
    ensures Overwrite(Overwrite(prior, data), data) == Overwrite(prior, data)
  {
  }

  /** The file holds exactly the written bytes iff the prior content was no
      longer than them: a longer prior tail survives. */
  lemma OverwriteExactIff(prior: seq<byte>, data: seq<byte>)
    ensures Overwrite(prior, data) == data <==> |prior| <= |data|
  {
  }

  /** `create_dir_all` on a path it already created succeeds and changes
      nothing. */
  lemma CreateDirAllIdempotent(fs: FileSystem, p: Path)
    requires CreateDirAll(fs, p).Some?
    ensures CreateDirAll(CreateDirAll(fs, p).value, p) == CreateDirAll(fs, p)
  {
    MakeDirsEffect(fs, p, 0);
    MakeDirsOnDirs(CreateDirAll(fs, p).value, p, 0);
  }

  /** Writing the same bytes to the same file again succeeds and changes
      nothing. */
  lemma WriteFileIdempotent(fs: FileSystem, p: Path, data: seq<byte>)
    requires WriteFile(fs, p, data).Some?
    ensures WriteFile(WriteFile(fs, p, data).value, p, data) == WriteFile(fs, p, data)
  {
    var f := WriteFile(fs, p, data).value;
    var parent := Parent(p).value;
    assert parent != p;
    assert IsDir(f, parent);
    OverwriteIdempotent(Existing(fs, p), data);
    assert f[p := File(Overwrite(Existing(f, p), data))] == f;
  }
}
