/**
 * A ZIP archive as the sequence of its entries (name and uncompressed
 * bytes). Compression and the container format are not modelled; what
 * matters here is which entries are written, in which order, under which
 * names.
 */
module Archive {
  import opened FileNames

  type Bytes = seq<bv8>

  datatype ZipEntry = ZipEntry(name: string, data: Bytes)

  function Names(entries: seq<ZipEntry>): (r: seq<string>)
    ensures |r| == |entries|
    ensures forall i :: 0 <= i < |entries| ==> r[i] == entries[i].name
  {
    seq(|entries|, i requires 0 <= i < |entries| => entries[i].name)
  }

  function NameSet(entries: seq<ZipEntry>): set<string>
  {
    set x | x in Names(entries)
  }

  predicate DistinctNames(entries: seq<ZipEntry>)
  {
    forall i, j :: 0 <= i < j < |entries| ==> entries[i].name != entries[j].name
  }

  /** `zipfile.ZipFile` opened for writing: `writestr` appends an entry. */
  class ZipFile {
    var entries: seq<ZipEntry>

    constructor ()
      ensures entries == []
    {
      entries := [];
    }

    /** `[info.filename for info in zip_file.filelist]`. */
    function FileList(): (r: seq<string>)
      reads this
      ensures |r| == |entries|
      ensures forall i :: 0 <= i < |entries| ==> r[i] == entries[i].name
    {
      Names(entries)
    }

    method WriteStr(name: string, data: Bytes)
      modifies this
      ensures entries == old(entries) + [ZipEntry(name, data)]
    {
      entries := entries + [ZipEntry(name, data)];
    }
  }

  /**
   * The archive obtained by writing `files` in order, each under the name the
   * probe loop chooses against the entries already written.
   */
  function ProbedArchive(files: seq<ZipEntry>): (r: seq<ZipEntry>)
    ensures |r| == |files|
    ensures forall i :: 0 <= i < |files| ==> r[i].data == files[i].data
  {
    if files == [] then []
    else
      var prev := ProbedArchive(files[..|files| - 1]);
      var f := files[|files| - 1];
      prev + [ZipEntry(FreeName(f.name, NameSet(prev)), f.data)]
  }

  /** Writing one more file appends the entry the probe loop names. */
  lemma ProbedArchiveStep(files: seq<ZipEntry>, f: ZipEntry)
    ensures ProbedArchive(files + [f])
         == ProbedArchive(files) + [ZipEntry(FreeName(f.name, NameSet(ProbedArchive(files))), f.data)]
  {
  }

  /** The archive of a prefix is the prefix of the archive. */
  lemma {:induction false} ProbedArchivePrefix(files: seq<ZipEntry>, n: nat)
    requires n <= |files|
    ensures ProbedArchive(files[..n]) == ProbedArchive(files)[..n]
  {
    if n < |files| {
      var init := files[..|files| - 1];
      assert files[..n] == init[..n];
      ProbedArchivePrefix(init, n);
    } else {
      assert files[..n] == files;
    }
  }

  /** Entry `i` is named after file `i`, and no earlier entry carries its name. */
  lemma {:induction false} ProbedArchiveEntry(files: seq<ZipEntry>, i: nat)
    requires i < |files|
    ensures ProbedArchive(files)[i].name == FreeName(files[i].name, NameSet(ProbedArchive(files)[..i]))
    ensures ProbedArchive(files)[i].name !in Names(ProbedArchive(files)[..i])
  {
    ProbedArchivePrefix(files, i + 1);
    ProbedArchivePrefix(files, i);
    var pre := files[..i + 1];
    assert pre[..|pre| - 1] == files[..i];
    var r := ProbedArchive(files);
    assert ProbedArchive(pre)[i] == r[i];
  }

  /** All entry names of the archive are pairwise distinct. */
  lemma ProbedArchiveDistinct(files: seq<ZipEntry>)
    ensures DistinctNames(ProbedArchive(files))
  {
  }

  /**
   * An entry keeps its file's name when no earlier entry took it; otherwise it
   * is "base (k)ext" of that name for the least free k >= 1.
   */
  lemma ProbedArchiveNaming(files: seq<ZipEntry>, i: nat)
    requires i < |files|
    ensures var r := ProbedArchive(files); var taken := NameSet(r[..i]);
      && (files[i].name !in taken ==> r[i].name == files[i].name)
      && (files[i].name in taken ==>
            exists k :: LeastFree(SplitExt(files[i].name).0, SplitExt(files[i].name).1, taken, k)
                     && r[i].name == Suffixed(SplitExt(files[i].name).0, k, SplitExt(files[i].name).1))
  {
    ProbedArchiveEntry(files, i);
  }

  /** Files whose names are already pairwise distinct are written under their own names. */
  lemma {:induction false} ProbedArchiveKeepsDistinct(files: seq<ZipEntry>)
    requires DistinctNames(files)
    ensures ProbedArchive(files) == files
  {
    if files != [] {
      var init := files[..|files| - 1];
      var f := files[|files| - 1];
      ProbedArchiveKeepsDistinct(init);
      assert f.name !in NameSet(init) by {
        forall k | 0 <= k < |init|
          ensures Names(init)[k] != f.name
        {
          assert files[k].name != files[|files| - 1].name;
        }
      }
      assert files == init + [f];
    }
  }
}
