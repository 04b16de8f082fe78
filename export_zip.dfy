/**
 * What `_create_zip_data` writes: one entry per selected attachment, in
 * order, carrying the decoded payload. Its entry names come from a per-name
 * repeat counter (`CounterNames`), which can give two entries the same name;
 * `ProbedArchive` is the corrected naming.
 */
module ExportZip {
  import opened Results
  import opened FileNames
  import opened Archive
  import opened Attachments

  /**
   * `attachment.name or attachment.datas_fname`: the name unless it is empty,
   * then the datas_fname, which may be unset (`False`).
   */
  function OriginalName(a: Attachment): (r: Option<string>)
    ensures a.name != "" ==> r == Some(a.name)
    ensures r.None? <==> a.name == "" && a.datasFname.None?
    ensures r.Some? ==> r.value == a.name || r == a.datasFname
  {
    if a.name != "" then Some(a.name) else a.datasFname
  }

  /** Whether the loop body of `_create_zip_data` gets past decoding and naming `a`. */
  predicate Exportable(a: Attachment)
  {
    a.datas.Some? && OriginalName(a).Some?
  }

  /**
   * What the loop body raises for attachment `id`, checked in its order: the
   * payload is decoded first, then `"." in original_name` raises when the
   * original name is `False`.
   */
  function ExportFailure(a: Attachment, id: int): (r: Option<Failure>)
    ensures r.None? <==> Exportable(a)
    ensures r == Some(UndecodablePayload(id)) <==> a.datas.None?
    ensures r == Some(UnnamedAttachment(id)) <==> a.datas.Some? && OriginalName(a).None?
  {
    if a.datas.None? then Some(UndecodablePayload(id))
    else if OriginalName(a).None? then Some(UnnamedAttachment(id))
    else None
  }

  /** What the loop over `ids` raises first, if anything. */
  function FirstFailure(rows: seq<Attachment>, ids: seq<int>): (r: Option<Failure>)
    requires AllValid(rows, ids)
    ensures r.None? <==> forall i :: 0 <= i < |ids| ==> Exportable(Get(rows, ids[i]))
    ensures r.Some? ==> exists i :: 0 <= i < |ids| && r == ExportFailure(Get(rows, ids[i]), ids[i])
  {
    if ids == [] then None
    else if ExportFailure(Get(rows, ids[0]), ids[0]).Some? then ExportFailure(Get(rows, ids[0]), ids[0])
    else
      var rest := FirstFailure(rows, ids[1..]);
      assert forall i :: 0 <= i < |ids| - 1 ==> ids[1..][i] == ids[i + 1];
      rest
  }

  /** The (original name, payload) pairs to archive, one per id. */
  function ExportFiles(rows: seq<Attachment>, ids: seq<int>): (r: seq<ZipEntry>)
    requires AllValid(rows, ids)
    requires FirstFailure(rows, ids).None?
    ensures |r| == |ids|
    ensures forall i :: 0 <= i < |ids| ==>
      r[i] == ZipEntry(OriginalName(Get(rows, ids[i])).value, Get(rows, ids[i]).datas.value)
  {
    seq(|ids|, i requires 0 <= i < |ids| =>
      ZipEntry(OriginalName(Get(rows, ids[i])).value, Get(rows, ids[i]).datas.value))
  }

  lemma {:induction false} FirstFailureAppend(rows: seq<Attachment>, xs: seq<int>, ys: seq<int>)
    requires AllValid(rows, xs) && AllValid(rows, ys)
    ensures AllValid(rows, xs + ys)
    ensures FirstFailure(rows, xs + ys)
         == if FirstFailure(rows, xs).Some? then FirstFailure(rows, xs) else FirstFailure(rows, ys)
  {
    assert AllValid(rows, xs + ys);
    if xs == [] {
      assert xs + ys == ys;
    } else {
      assert (xs + ys)[1..] == xs[1..] + ys;
      FirstFailureAppend(rows, xs[1..], ys);
    }
  }

  /** Looking at one more record: it raises the first failure, or the files grow by one. */
  lemma ExportFilesStep(rows: seq<Attachment>, ids: seq<int>, i: nat)
    requires AllValid(rows, ids) && i < |ids|
    requires FirstFailure(rows, ids[..i]).None?
    ensures !Exportable(Get(rows, ids[i])) ==> FirstFailure(rows, ids) == ExportFailure(Get(rows, ids[i]), ids[i])
    ensures Exportable(Get(rows, ids[i])) ==>
              && FirstFailure(rows, ids[..i + 1]).None?
              && ExportFiles(rows, ids[..i + 1])
                 == ExportFiles(rows, ids[..i])
                    + [ZipEntry(OriginalName(Get(rows, ids[i])).value, Get(rows, ids[i]).datas.value)]
  {
    var a := Get(rows, ids[i]);
    assert ids == ids[..i] + ids[i..];
    assert AllValid(rows, ids[..i]) && AllValid(rows, ids[i..]);
    FirstFailureAppend(rows, ids[..i], ids[i..]);
    if Exportable(a) {
      ExportFilesSnoc(rows, ids[..i], ids[i]);
      assert ids[..i + 1] == ids[..i] + [ids[i]];
    } else {
      assert ids[i..][0] == ids[i];
    }
  }

  /**
   * An attachment whose payload decodes but that has an empty name and no
   * datas_fname stops the export with a TypeError, unless an earlier one failed.
   */
  lemma UnnamedAttachmentFails(rows: seq<Attachment>, ids: seq<int>, i: nat)
    requires AllValid(rows, ids) && i < |ids|
    requires FirstFailure(rows, ids[..i]).None?
    requires Get(rows, ids[i]).datas.Some?
    requires Get(rows, ids[i]).name == "" && Get(rows, ids[i]).datasFname.None?
    ensures FirstFailure(rows, ids) == Some(UnnamedAttachment(ids[i]))
  {
    ExportFilesStep(rows, ids, i);
  }

  /** Archiving one more attachment that decodes and has a name appends its file. */
  lemma ExportFilesSnoc(rows: seq<Attachment>, ids: seq<int>, id: int)
    requires AllValid(rows, ids) && ValidId(rows, id)
    requires FirstFailure(rows, ids).None? && Exportable(Get(rows, id))
    ensures AllValid(rows, ids + [id]) && FirstFailure(rows, ids + [id]).None?
    ensures ExportFiles(rows, ids + [id])
         == ExportFiles(rows, ids) + [ZipEntry(OriginalName(Get(rows, id)).value, Get(rows, id).datas.value)]
  {
  }

  function Occurrences(s: seq<string>, x: string): nat
  {
    multiset(s)[x]
  }

  /** The name the counter scheme gives to an original name already seen `k` times. */
  function RepeatName(original: string, k: nat): string
  {
    if k == 0 then original
    else Suffixed(SplitExt(original).0, k, SplitExt(original).1)
  }

  /**
   * The entry names `_create_zip_data` chooses: the first occurrence of an
   * original name keeps it, its k-th repeat becomes "base (k)ext".
   */
  function CounterNames(originals: seq<string>): (r: seq<string>)
    ensures |r| == |originals|
    ensures forall i :: 0 <= i < |originals| && originals[i] !in originals[..i] ==> r[i] == originals[i]
    ensures forall i :: 0 <= i < |originals| && originals[i] in originals[..i] ==> r[i] != originals[i]
  {
    seq(|originals|, i requires 0 <= i < |originals| =>
      RepeatName(originals[i], Occurrences(originals[..i], originals[i])))
  }

  function CounterArchive(files: seq<ZipEntry>): (r: seq<ZipEntry>)
    ensures |r| == |files|
    ensures forall i :: 0 <= i < |files| ==> r[i].data == files[i].data
  {
    var names := CounterNames(Names(files));
    seq(|files|, i requires 0 <= i < |files| => ZipEntry(names[i], files[i].data))
  }

  /** Archiving one more file under the counter scheme appends one entry. */
  lemma CounterArchiveStep(files: seq<ZipEntry>, f: ZipEntry)
    ensures Names(files + [f]) == Names(files) + [f.name]
    ensures CounterArchive(files + [f])
         == CounterArchive(files) + [ZipEntry(RepeatName(f.name, Occurrences(Names(files), f.name)), f.data)]
  {
    var all := files + [f];
    assert Names(all) == Names(files) + [f.name];
    assert Names(all)[..|files|] == Names(files);
    forall i | 0 <= i < |files|
      ensures Names(all)[..i] == Names(files)[..i]
    {
    }
  }

  /** `name_count` after the files in `names`: each seen name, mapped to its count minus one. */
  ghost predicate CountsOf(nameCount: map<string, nat>, names: seq<string>)
  {
    && (forall o :: o in nameCount <==> o in names)
    && (forall o :: o in nameCount ==> nameCount[o] + 1 == Occurrences(names, o))
  }

  lemma CountsStep(nameCount: map<string, nat>, names: seq<string>, o: string)
    requires CountsOf(nameCount, names)
    ensures o in nameCount ==>
              && CountsOf(nameCount[o := nameCount[o] + 1], names + [o])
              && nameCount[o] + 1 == Occurrences(names, o)
    ensures o !in nameCount ==>
              && CountsOf(nameCount[o := 0], names + [o])
              && Occurrences(names, o) == 0
  {
  }

  /**
   * The naming step of `_create_zip_data`: a repeat of a seen name bumps its
   * count and takes "base (count)ext"; a new name is recorded with count 0 and
   * kept.
   */
  method CountedName(nameCount: map<string, nat>, original: string, ghost names: seq<string>)
    returns (fileName: string, updated: map<string, nat>)
    requires CountsOf(nameCount, names)
    ensures CountsOf(updated, names + [original])
    ensures fileName == RepeatName(original, Occurrences(names, original))
  {
    var base, ext := SplitExt(original).0, SplitExt(original).1;
    CountsStep(nameCount, names, original);
    if original in nameCount {
      updated := nameCount[original := nameCount[original] + 1];
      fileName := Suffixed(base, updated[original], ext);
    } else {
      updated := nameCount[original := 0];
      fileName := original;
    }
  }

  /**
   * The counter scheme does not keep entry names apart: two attachments named
   * "a" and one named "a (1)" give two entries named "a (1)".
   */
  lemma CounterNamingCollides()
    ensures var names := CounterNames(["a", "a", "a (1)"]);
      names[1] == names[2] == "a (1)"
  {
  }

  /** So the archive the counter scheme builds can hold two entries with one name. */
  lemma CounterArchiveNotDistinct()
    ensures var files := [ZipEntry("a", []), ZipEntry("a", []), ZipEntry("a (1)", [])];
      !DistinctNames(CounterArchive(files))
  {
    var files := [ZipEntry("a", []), ZipEntry("a", []), ZipEntry("a (1)", [])];
    assert Names(files) == ["a", "a", "a (1)"];
    CounterNamingCollides();
    var r := CounterArchive(files);
    assert r[1].name == r[2].name;
  }

  /** The corrected naming writes every file under a name of its own. */
  lemma CorrectedArchiveDistinct(rows: seq<Attachment>, ids: seq<int>)
    requires AllValid(rows, ids) && FirstFailure(rows, ids).None?
    ensures DistinctNames(ProbedArchive(ExportFiles(rows, ids)))
    ensures |ProbedArchive(ExportFiles(rows, ids))| == |ids|
  {
    ProbedArchiveDistinct(ExportFiles(rows, ids));
  }
}
