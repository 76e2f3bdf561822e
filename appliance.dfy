/**
  The naming and layout logic of the appliance packager (`TNApplianceCompresser`):
  the package name it sanitises, the paths of the tar file and of each
  compressed disk, and the entries it adds to the archive, in order, together
  with the definition text it archives.
 */
module Appliance {
  import opened Text

  // ---------------------------------------------------------------------
  // Names and paths
  // ---------------------------------------------------------------------

  /** The package name: blanks, slashes, backslashes and `..` each replaced by `_`, in that order. */
  function Sanitise(name: string): (r: string)
    ensures ' ' !in r && '/' !in r && '\\' !in r
    ensures !Contains(r, "..")
  {
    var a := Replace(name, " ", "_");
    ReplaceCharGone(name, ' ', "_");
    var b := Replace(a, "/", "_");
    ReplaceCharGone(a, '/', "_");
    ReplaceKeepsOut(a, "/", "_", ' ');
    var c := Replace(b, "\\", "_");
    ReplaceCharGone(b, '\\', "_");
    ReplaceKeepsOut(b, "\\", "_", ' ');
    ReplaceKeepsOut(b, "\\", "_", '/');
    ReplaceKeepsOut(c, "..", "_", ' ');
    ReplaceKeepsOut(c, "..", "_", '/');
    ReplaceKeepsOut(c, "..", "_", '\\');
    CollapseLeavesNoPair(c);
    Replace(c, "..", "_")
  }

  /** Sanitising a sanitised name changes nothing. */
  lemma SanitiseIdempotent(name: string)
    ensures Sanitise(Sanitise(name)) == Sanitise(name)
  {
    var s := Sanitise(name);
    ContainsChar(s, ' ');
    ReplaceAbsent(s, " ", "_");
    ContainsChar(s, '/');
    ReplaceAbsent(s, "/", "_");
    ContainsChar(s, '\\');
    ReplaceAbsent(s, "\\", "_");
    ReplaceAbsent(s, "..", "_");
  }

  /** A name that needs no sanitising is kept as it is. */
  lemma SanitiseKeepsClean(name: string)
    requires ' ' !in name && '/' !in name && '\\' !in name && !Contains(name, "..")
    ensures Sanitise(name) == name
  {
    ContainsChar(name, ' ');
    ReplaceAbsent(name, " ", "_");
    ContainsChar(name, '/');
    ReplaceAbsent(name, "/", "_");
    ContainsChar(name, '\\');
    ReplaceAbsent(name, "\\", "_");
    ReplaceAbsent(name, "..", "_");
  }

  /** The tar file the package is written to: `<working dir>/<name>.xvm2`. */
  function TarPath(workingDir: string, name: string): string {
    workingDir + "/" + name + ".xvm2"
  }

  /** The tar file of a sanitised name sits directly in the working directory and is named after the package. */
  lemma TarPathFileName(workingDir: string, name: string)
    ensures LastSegment(TarPath(workingDir, Sanitise(name))) == Sanitise(name) + ".xvm2"
    ensures TarPath(workingDir, Sanitise(name))[..|workingDir| + 1] == workingDir + "/"
  {
    var y := Sanitise(name) + ".xvm2";
    assert '/' !in y;
    assert TarPath(workingDir, Sanitise(name)) == workingDir + "/" + y;
    LastSegmentAfter(workingDir, y);
  }

  /**
    `compress_disk`'s output path: the disk's file name with `.gz` appended,
    directly inside the working directory.
   */
  function ZipPath(workingDir: string, path: string): (z: string)
    ensures LastSegment(z) == LastSegment(path) + ".gz"
    ensures z == workingDir + "/" + LastSegment(z)
  {
    var y := LastSegment(path) + ".gz";
    assert '/' !in y;
    LastSegmentAfter(workingDir, y);
    workingDir + "/" + y
  }

  /** Disks with different file names get different compressed paths, and the same one otherwise. */
  lemma ZipPathInjective(workingDir: string, p1: string, p2: string)
    ensures ZipPath(workingDir, p1) == ZipPath(workingDir, p2) <==> LastSegment(p1) == LastSegment(p2)
  {
    if ZipPath(workingDir, p1) == ZipPath(workingDir, p2) {
      var z1, z2 := LastSegment(p1) + ".gz", LastSegment(p2) + ".gz";
      assert z1 == LastSegment(ZipPath(workingDir, p1));
      assert z1[..|z1| - 3] == LastSegment(p1);
      assert z2[..|z2| - 3] == LastSegment(p2);
    }
  }

  // ---------------------------------------------------------------------
  // The definition text
  // ---------------------------------------------------------------------

  /** The namespace attribute the XML library adds to every serialised element, with its trailing blank. */
  const JunkNamespace := "xmlns=\"http://www.gajim.org/xmlns/undeclared\" "

  /** An XML document as text around the character data of its `description` element. */
  datatype Document = Document(before: string, description: string, after: string)

  function Render(d: Document): string {
    d.before + d.description + d.after
  }

  /** `str(node).replace(junk, '')`. */
  function StripJunk(xml: string): string {
    Replace(xml, JunkNamespace, "")
  }

  /** The definition text the package archives: description emptied, then serialised and stripped. */
  function ArchivedDefinition(d: Document): string {
    StripJunk(Render(d.(description := "")))
  }

  /** The archived definition keeps nothing of the description, so the `jid::::password` text stays out. */
  lemma ArchivedDefinitionForgetsDescription(d: Document, other: string)
    ensures ArchivedDefinition(d) == ArchivedDefinition(d.(description := other))
    ensures ArchivedDefinition(d) == StripJunk(d.before + d.after)
  {
    assert d.before + "" + d.after == d.before + d.after;
  }

  /** The text the disk loop leaves: each disk path in turn replaced by its compressed file name. */
  function RewritePaths(xml: string, workingDir: string, paths: seq<string>): string
    decreases |paths|
  {
    if paths == [] then xml
    else
      var last := paths[|paths| - 1];
      Replace(RewritePaths(xml, workingDir, paths[..|paths| - 1]), last, LastSegment(ZipPath(workingDir, last)))
  }

  /** The compressed path of each disk, in input order. */
  function ZipPaths(workingDir: string, paths: seq<string>): (zs: seq<string>)
    ensures |zs| == |paths|
    ensures forall k :: 0 <= k < |paths| ==> zs[k] == ZipPath(workingDir, paths[k])
    decreases |paths|
  {
    if paths == [] then []
    else ZipPaths(workingDir, paths[..|paths| - 1]) + [ZipPath(workingDir, paths[|paths| - 1])]
  }

  /** Compressing one more disk appends its compressed path. */
  lemma ZipPathsStep(workingDir: string, paths: seq<string>, i: nat)
    requires i < |paths|
    ensures ZipPaths(workingDir, paths[..i + 1]) == ZipPaths(workingDir, paths[..i]) + [ZipPath(workingDir, paths[i])]
  {
    assert paths[..i + 1][..i] == paths[..i];
  }

  /** Rewriting one more disk path replaces it in the text the earlier rewrites left. */
  lemma RewritePathsStep(xml: string, workingDir: string, paths: seq<string>, i: nat)
    requires i < |paths|
    ensures RewritePaths(xml, workingDir, paths[..i + 1]) ==
            Replace(RewritePaths(xml, workingDir, paths[..i]), paths[i], LastSegment(ZipPath(workingDir, paths[i])))
  {
    assert paths[..i + 1][..i] == paths[..i];
  }

  // ---------------------------------------------------------------------
  // The archive
  // ---------------------------------------------------------------------

  /** What an entry holds: a written XML text or a compressed disk. */
  datatype Content = Xml(text: string) | Disk

  /** `tar.add(file, arcname)`. */
  datatype Member = Member(arcname: string, file: string, content: Content)

  /** `"/snapshot-%d.xml" % i`. */
  function SnapshotName(i: nat): string {
    "/snapshot-" + NatToString(i) + ".xml"
  }

  function DescriptionMember(workingDir: string, d: Document): Member {
    Member("/description.xml", workingDir + "/description.xml", Xml(ArchivedDefinition(d)))
  }

  /** The entries of the first `n` snapshots; the file path joins the working dir and the entry name with a `/`. */
  function SnapshotMembers(workingDir: string, snapshots: seq<string>, n: nat): (ms: seq<Member>)
    requires n <= |snapshots|
    ensures |ms| == n
    ensures forall i :: 0 <= i < n ==>
      ms[i] == Member(SnapshotName(i), workingDir + "/" + SnapshotName(i), Xml(StripJunk(snapshots[i])))
  {
    seq(n, i requires 0 <= i < n => Member(SnapshotName(i), workingDir + "/" + SnapshotName(i), Xml(StripJunk(snapshots[i]))))
  }

  /** The entry of each compressed disk, named `/` and its compressed file name. */
  function DiskMember(zipped: string): Member {
    Member("/" + LastSegment(zipped), zipped, Disk)
  }

  /** The whole archive: description, then the snapshots in order, then the disks in input order. */
  function Layout(workingDir: string, d: Document, snapshots: seq<string>, paths: seq<string>): (ms: seq<Member>)
    ensures |ms| == 1 + |snapshots| + |paths|
  {
    [DescriptionMember(workingDir, d)] + SnapshotMembers(workingDir, snapshots, |snapshots|)
    + seq(|paths|, i requires 0 <= i < |paths| => DiskMember(ZipPath(workingDir, paths[i])))
  }

  /** Where each entry of the layout sits and what it is called. */
  lemma LayoutOrder(workingDir: string, d: Document, snapshots: seq<string>, paths: seq<string>)
    ensures var ms := Layout(workingDir, d, snapshots, paths);
      ms[0].arcname == "/description.xml" &&
      (forall i :: 0 <= i < |snapshots| ==> ms[1 + i].arcname == SnapshotName(i)) &&
      (forall i :: 0 <= i < |paths| ==> ms[1 + |snapshots| + i].arcname == "/" + LastSegment(paths[i]) + ".gz")
  {
  }

  /** Two distinct snapshot indexes give two distinct entry names. */
  lemma SnapshotNameInjective(i: nat, j: nat)
    requires SnapshotName(i) == SnapshotName(j)
    ensures i == j
  {
    var a, b := NatToString(i), NatToString(j);
    assert SnapshotName(i)[10..|SnapshotName(i)| - 4] == a;
    assert SnapshotName(j)[10..|SnapshotName(j)| - 4] == b;
    NatToStringInjective(i, j);
  }

  /** Distinct entry names throughout the archive. */
  ghost predicate ArcnamesDistinct(ms: seq<Member>) {
    forall i, j :: 0 <= i < |ms| && 0 <= j < |ms| && i != j ==> ms[i].arcname != ms[j].arcname
  }

  /** The disk file names are pairwise distinct. */
  ghost predicate FileNamesDistinct(paths: seq<string>) {
    forall i, j :: 0 <= i < |paths| && 0 <= j < |paths| && i != j ==> LastSegment(paths[i]) != LastSegment(paths[j])
  }

  /** An XML entry name never ends the way a disk entry name does. */
  lemma XmlIsNotDisk(x: string, seg: string)
    requires |x| >= 4 && x[|x| - 4..] == ".xml"
    ensures x != "/" + seg + ".gz"
  {
    var y := "/" + seg + ".gz";
    assert y[|y| - 1] == 'z';
  }

  /**
    The archive names every entry differently exactly when no two disks share
    a file name: disks in different directories with the same file name
    collide in the archive.
   */
  lemma LayoutArcnamesDistinct(workingDir: string, d: Document, snapshots: seq<string>, paths: seq<string>)
    ensures ArcnamesDistinct(Layout(workingDir, d, snapshots, paths)) <==> FileNamesDistinct(paths)
  {
    var ms := Layout(workingDir, d, snapshots, paths);
    var s := |snapshots|;
    LayoutOrder(workingDir, d, snapshots, paths);
    if FileNamesDistinct(paths) {
      var segs := FileNames(paths);
      assert Distinct(segs);
      forall i, j | 0 <= i < |ms| && 0 <= j < |ms| && i != j
        ensures ms[i].arcname != ms[j].arcname
      {
        LayoutArcname(workingDir, d, snapshots, paths, i);
        LayoutArcname(workingDir, d, snapshots, paths, j);
        ArcnameDiffers(s, segs, i, j);
      }
    }
    if ArcnamesDistinct(ms) {
      forall i, j | 0 <= i < |paths| && 0 <= j < |paths| && i != j
        ensures LastSegment(paths[i]) != LastSegment(paths[j])
      {
        assert ms[1 + s + i].arcname != ms[1 + s + j].arcname;
      }
    }
  }

  /** The description entry is not a snapshot entry. */
  lemma DescriptionIsNotSnapshot(k: nat)
    ensures "/description.xml" != SnapshotName(k)
  {
    assert SnapshotName(k)[1] == 's';
    assert "/description.xml"[1] == 'd';
  }

  /** Two disk entries differ when the file names differ. */
  lemma DiskNamesDiffer(s1: string, s2: string)
    requires s1 != s2
    ensures "/" + s1 + ".gz" != "/" + s2 + ".gz"
  {
    var a, b := "/" + s1 + ".gz", "/" + s2 + ".gz";
    assert a[1..|a| - 3] == s1 && b[1..|b| - 3] == s2;
  }

  /** The file name of each disk, in input order. */
  function FileNames(paths: seq<string>): (segs: seq<string>)
    ensures |segs| == |paths|
  {
    seq(|paths|, k requires 0 <= k < |paths| => LastSegment(paths[k]))
  }

  /** Pairwise distinct strings. */
  ghost predicate Distinct(segs: seq<string>) {
    forall i, j :: 0 <= i < |segs| && 0 <= j < |segs| && i != j ==> segs[i] != segs[j]
  }

  /** The name of the `i`-th entry of a layout with `s` snapshots and disks of the given file names. */
  function ArcnameAt(s: nat, segs: seq<string>, i: nat): string
    requires i < 1 + s + |segs|
  {
    if i == 0 then "/description.xml"
    else if i <= s then SnapshotName(i - 1)
    else "/" + segs[i - 1 - s] + ".gz"
  }

  lemma LayoutArcname(workingDir: string, d: Document, snapshots: seq<string>, paths: seq<string>, i: nat)
    requires i < 1 + |snapshots| + |paths|
    ensures Layout(workingDir, d, snapshots, paths)[i].arcname == ArcnameAt(|snapshots|, FileNames(paths), i)
  {
    var ms, s := Layout(workingDir, d, snapshots, paths), |snapshots|;
    if i == 0 {
      assert ms[0] == DescriptionMember(workingDir, d);
    } else if i <= s {
      assert ms[i] == SnapshotMembers(workingDir, snapshots, s)[i - 1];
    } else {
      var k := i - 1 - s;
      assert ms[i] == DiskMember(ZipPath(workingDir, paths[k]));
      assert FileNames(paths)[k] == LastSegment(paths[k]);
    }
  }

  /** An XML entry and a disk entry never share a name. */
  lemma XmlEntryIsNotDisk(s: nat, segs: seq<string>, x: nat, y: nat)
    requires x <= s < y < 1 + s + |segs|
    ensures ArcnameAt(s, segs, x) != ArcnameAt(s, segs, y)
  {
    var name := ArcnameAt(s, segs, x);
    if x == 0 {
      assert name == "/description.xml";
    } else {
      assert name == SnapshotName(x - 1);
    }
    XmlIsNotDisk(name, segs[y - 1 - s]);
  }

  /** Positions holding XML entries carry distinct names. */
  lemma XmlEntriesDiffer(s: nat, segs: seq<string>, i: nat, j: nat)
    requires i <= s && j <= s && i != j
    ensures ArcnameAt(s, segs, i) != ArcnameAt(s, segs, j)
  {
    if i == 0 {
      DescriptionIsNotSnapshot(j - 1);
    } else if j == 0 {
      DescriptionIsNotSnapshot(i - 1);
    } else if SnapshotName(i - 1) == SnapshotName(j - 1) {
      SnapshotNameInjective(i - 1, j - 1);
    }
  }

  /** Positions holding disk entries carry distinct names when the file names are distinct. */
  lemma DiskEntriesDiffer(s: nat, segs: seq<string>, i: nat, j: nat)
    requires Distinct(segs)
    requires s < i < 1 + s + |segs| && s < j < 1 + s + |segs| && i != j
    ensures ArcnameAt(s, segs, i) != ArcnameAt(s, segs, j)
  {
    DiskNamesDiffer(segs[i - 1 - s], segs[j - 1 - s]);
  }

  /** Any two positions of a layout whose disk file names are distinct carry distinct names. */
  lemma ArcnameDiffers(s: nat, segs: seq<string>, i: nat, j: nat)
    requires Distinct(segs)
    requires i < 1 + s + |segs| && j < 1 + s + |segs| && i != j
    ensures ArcnameAt(s, segs, i) != ArcnameAt(s, segs, j)
  {
    if i <= s {
      if j <= s {
        XmlEntriesDiffer(s, segs, i, j);
      } else {
        XmlEntryIsNotDisk(s, segs, i, j);
      }
    } else if j <= s {
      XmlEntryIsNotDisk(s, segs, j, i);
    } else {
      DiskEntriesDiffer(s, segs, i, j);
    }
  }

  // ---------------------------------------------------------------------
  // The packager
  // ---------------------------------------------------------------------

  class ApplianceCompresser {
    /** The sanitised package name. */
    const name: string
    /** The disks to compress, in order. */
    const paths: seq<string>
    /** The machine definition; `run` empties its description in place. */
    var definition: Document
    /** The serialised snapshot definitions, in order. */
    const snapshots: seq<string>
    /** The temporary directory created inside the given working directory. */
    const workingDir: string

    /** `tempDir` is the directory `mkdtemp` created. */
    constructor (name: string, paths: seq<string>, definition: Document, snapshots: seq<string>, tempDir: string)
      ensures this.name == Sanitise(name) && this.paths == paths && this.definition == definition
      ensures this.snapshots == snapshots && this.workingDir == tempDir
    {
      this.name := Sanitise(name);
      this.paths := paths;
      this.definition := definition;
      this.snapshots := snapshots;
      this.workingDir := tempDir;
    }

    /** The snapshot loop of `run`: one entry per snapshot definition, in order. */
    method SnapshotEntries() returns (ms: seq<Member>)
      ensures ms == SnapshotMembers(workingDir, snapshots, |snapshots|)
    {
      ms := [];
      var i := 0;
      while i < |snapshots|
        invariant i <= |snapshots|
        invariant ms == SnapshotMembers(workingDir, snapshots, i)
      {
        var descName := "/snapshot-" + NatToString(i) + ".xml";
        ms := ms + [Member(descName, workingDir + "/" + descName, Xml(StripJunk(snapshots[i])))];
        i := i + 1;
      }
    }

    /** `compress_disk`: the compressed copy of a disk is written into the working directory; its path is returned. */
    method CompressDisk(path: string) returns (zip: string)
      ensures zip == ZipPath(workingDir, path)
    {
      zip := workingDir + "/" + LastSegment(path) + ".gz";
    }

    /**
      The compression loop of `run`: each disk compressed into the working
      directory, and each disk path in the definition text replaced by the
      compressed file name.
     */
    method CompressDisks(xml: string) returns (zipped: seq<string>, rewritten: string)
      ensures zipped == ZipPaths(workingDir, paths)
      ensures rewritten == RewritePaths(xml, workingDir, paths)
    {
      zipped, rewritten := [], xml;
      var i := 0;
      while i < |paths|
        invariant i <= |paths|
        invariant zipped == ZipPaths(workingDir, paths[..i])
        invariant rewritten == RewritePaths(xml, workingDir, paths[..i])
      {
        var zip := CompressDisk(paths[i]);
        RewritePathsStep(xml, workingDir, paths, i);
        ZipPathsStep(workingDir, paths, i);
        rewritten := Replace(rewritten, paths[i], LastSegment(zip));
        zipped := zipped + [zip];
        i := i + 1;
      }
      assert paths[..|paths|] == paths;
    }

    /**
      `run`: the tar path, the entries added to it in order, and the
      definition text as the disk loop leaves it. The description element of
      the definition is emptied; the text archived is the one before the disk
      paths are rewritten.
     */
    method Run() returns (tarFile: string, members: seq<Member>, definitionXml: string)
      modifies this
      ensures definition == old(definition).(description := "")
      ensures tarFile == TarPath(workingDir, name)
      ensures members == Layout(workingDir, old(definition), snapshots, paths)
      ensures members[0].content == Xml(ArchivedDefinition(old(definition)))
      ensures definitionXml == RewritePaths(ArchivedDefinition(old(definition)), workingDir, paths)
    {
      tarFile := workingDir + "/" + name + ".xvm2";
      definition := definition.(description := "");
      definitionXml := StripJunk(Render(definition));
      var described := Member("/description.xml", workingDir + "/description.xml", Xml(definitionXml));
      var snapshotEntries := SnapshotEntries();
      var zipped;
      zipped, definitionXml := CompressDisks(definitionXml);
      var diskEntries := DiskEntries(zipped);
      members := [described] + snapshotEntries + diskEntries;
    }
  }

  /** The loop of `run` that adds the compressed disks to the archive, in order. */
  method DiskEntries(zipped: seq<string>) returns (ms: seq<Member>)
    ensures ms == seq(|zipped|, k requires 0 <= k < |zipped| => DiskMember(zipped[k]))
  {
    ms := [];
    var i := 0;
    while i < |zipped|
      invariant i <= |zipped|
      invariant ms == seq(i, k requires 0 <= k < i => DiskMember(zipped[k]))
    {
      ms := ms + [Member("/" + LastSegment(zipped[i]), zipped[i], Disk)];
      i := i + 1;
    }
  }
}
