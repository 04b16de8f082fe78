/**
 * The `/web/attachment/download_zip` route: it reads a comma-separated id
 * list, keeps the binary attachments and streams them into one ZIP archive,
 * giving every entry a name of its own and skipping the attachments it
 * cannot read or decode.
 */
module ZipController {
  import opened Results
  import opened FileNames
  import opened Archive
  import opened Attachments
  import opened IdList

  /** What the route answers: 404, an error that escapes the handler, or the archive. */
  datatype Response = NotFound | ServerError(failure: Failure) | ZipDownload(entries: seq<ZipEntry>)

  /** Mimetypes whose payload is decoded as UTF-8 text before it is written. */
  const TEXT_MIMETYPES: seq<string> := ["text/csv", "text/plain"]

  /**
   * Whether the loop body writes an entry for `a`: the read check passed, the
   * payload decodes, and text payloads are valid UTF-8 (otherwise an exception
   * is raised and the attachment skipped).
   */
  predicate Writes(a: Attachment, readable: bool, utf8Ok: Bytes -> bool)
  {
    readable && a.datas.Some? && (a.mimetype in TEXT_MIMETYPES ==> utf8Ok(a.datas.value))
  }

  /** What the loop writes for one attachment: its name and payload, or nothing when it is skipped. */
  function Written(a: Attachment, readable: bool, utf8Ok: Bytes -> bool): (r: seq<ZipEntry>)
    ensures |r| <= 1
    ensures r != [] <==> Writes(a, readable, utf8Ok)
    ensures r != [] ==> r[0].name == a.name && Some(r[0].data) == a.datas
  {
    if Writes(a, readable, utf8Ok) then [ZipEntry(a.name, a.datas.value)] else []
  }

  /** The (name, payload) pairs the loop writes, in order. */
  function WrittenFiles(rows: seq<Attachment>, ids: seq<int>, readable: int -> bool, utf8Ok: Bytes -> bool): (r: seq<ZipEntry>)
    requires AllValid(rows, ids)
    ensures |r| <= |ids|
  {
    if ids == [] then []
    else
      var init := WrittenFiles(rows, ids[..|ids| - 1], readable, utf8Ok);
      var id := ids[|ids| - 1];
      var a := Get(rows, id);
      init + Written(a, readable(id), utf8Ok)
  }

  /**
   * Skip-on-failure, one attachment at a time: attachment `i` contributes
   * exactly `Written` of it, between what the attachments before and after it
   * contribute.
   */
  lemma WrittenFilesSplit(rows: seq<Attachment>, ids: seq<int>, i: nat, readable: int -> bool, utf8Ok: Bytes -> bool)
    requires AllValid(rows, ids) && i < |ids|
    ensures AllValid(rows, ids[..i]) && AllValid(rows, ids[i + 1..])
    ensures WrittenFiles(rows, ids, readable, utf8Ok)
         == WrittenFiles(rows, ids[..i], readable, utf8Ok)
            + Written(Get(rows, ids[i]), readable(ids[i]), utf8Ok)
            + WrittenFiles(rows, ids[i + 1..], readable, utf8Ok)
  {
    var xs, ys := ids[..i], ids[i + 1..];
    assert ids == xs + [ids[i]] + ys;
    assert AllValid(rows, xs) && AllValid(rows, [ids[i]]) && AllValid(rows, ys);
    WrittenFilesAppend(rows, xs, [ids[i]], readable, utf8Ok);
    WrittenFilesAppend(rows, xs + [ids[i]], ys, readable, utf8Ok);
    assert [ids[i]][..0] == [];
  }

  /** Every pair written is that of a requested attachment which passed the checks. */
  lemma {:induction false} WrittenFilesSound(rows: seq<Attachment>, ids: seq<int>, readable: int -> bool, utf8Ok: Bytes -> bool)
    requires AllValid(rows, ids)
    ensures forall k :: 0 <= k < |WrittenFiles(rows, ids, readable, utf8Ok)| ==>
      exists i :: 0 <= i < |ids|
        && Written(Get(rows, ids[i]), readable(ids[i]), utf8Ok) == [WrittenFiles(rows, ids, readable, utf8Ok)[k]]
  {
    if ids != [] {
      var init := ids[..|ids| - 1];
      WrittenFilesSound(rows, init, readable, utf8Ok);
      var r := WrittenFiles(rows, ids, readable, utf8Ok);
      var prev := WrittenFiles(rows, init, readable, utf8Ok);
      var last := ids[|ids| - 1];
      assert r == prev + Written(Get(rows, last), readable(last), utf8Ok);
      forall k | 0 <= k < |r|
        ensures exists i :: 0 <= i < |ids| && Written(Get(rows, ids[i]), readable(ids[i]), utf8Ok) == [r[k]]
      {
        if k < |prev| {
          assert r[k] == prev[k];
          var i :| 0 <= i < |init| && Written(Get(rows, init[i]), readable(init[i]), utf8Ok) == [prev[k]];
          assert init[i] == ids[i];
          assert Written(Get(rows, ids[i]), readable(ids[i]), utf8Ok) == [r[k]];
        } else {
          var j := |ids| - 1;
          assert r[k] == Written(Get(rows, last), readable(last), utf8Ok)[k - |prev|];
          assert Written(Get(rows, ids[j]), readable(ids[j]), utf8Ok) == [r[k]];
        }
      }
    } else {
      assert WrittenFiles(rows, ids, readable, utf8Ok) == [];
    }
  }

  /** Looking at one more attachment appends what is written for it. */
  lemma WrittenFilesStep(rows: seq<Attachment>, ids: seq<int>, i: nat, readable: int -> bool, utf8Ok: Bytes -> bool)
    requires AllValid(rows, ids) && i < |ids|
    ensures AllValid(rows, ids[..i]) && AllValid(rows, ids[..i + 1])
    ensures WrittenFiles(rows, ids[..i + 1], readable, utf8Ok)
         == WrittenFiles(rows, ids[..i], readable, utf8Ok) + Written(Get(rows, ids[i]), readable(ids[i]), utf8Ok)
  {
    assert ids[..i + 1][..i] == ids[..i];
  }

  /** When every requested attachment fails a check, nothing is written. */
  lemma {:induction false} WrittenFilesNone(rows: seq<Attachment>, ids: seq<int>, readable: int -> bool, utf8Ok: Bytes -> bool)
    requires AllValid(rows, ids)
    requires forall i :: 0 <= i < |ids| ==> !Writes(Get(rows, ids[i]), readable(ids[i]), utf8Ok)
    ensures WrittenFiles(rows, ids, readable, utf8Ok) == []
  {
    if ids != [] {
      WrittenFilesNone(rows, ids[..|ids| - 1], readable, utf8Ok);
    }
  }

  /** Writing one more attachment appends what is written for it. */
  lemma WrittenFilesSnoc(rows: seq<Attachment>, ids: seq<int>, id: int, readable: int -> bool, utf8Ok: Bytes -> bool)
    requires AllValid(rows, ids) && ValidId(rows, id)
    ensures AllValid(rows, ids + [id])
    ensures WrittenFiles(rows, ids + [id], readable, utf8Ok)
         == WrittenFiles(rows, ids, readable, utf8Ok) + Written(Get(rows, id), readable(id), utf8Ok)
  {
  }

  /** Skipping keeps order: the files written for a concatenation concatenate. */
  lemma {:induction false} WrittenFilesAppend(rows: seq<Attachment>, xs: seq<int>, ys: seq<int>,
                                              readable: int -> bool, utf8Ok: Bytes -> bool)
    requires AllValid(rows, xs) && AllValid(rows, ys)
    ensures AllValid(rows, xs + ys)
    ensures WrittenFiles(rows, xs + ys, readable, utf8Ok)
         == WrittenFiles(rows, xs, readable, utf8Ok) + WrittenFiles(rows, ys, readable, utf8Ok)
  {
    if ys == [] {
      assert xs + ys == xs;
    } else {
      var init, last := ys[..|ys| - 1], ys[|ys| - 1];
      assert ys == init + [last];
      assert xs + ys == (xs + init) + [last];
      WrittenFilesAppend(rows, xs, init, readable, utf8Ok);
      WrittenFilesSnoc(rows, init, last, readable, utf8Ok);
      WrittenFilesSnoc(rows, xs + init, last, readable, utf8Ok);
    }
  }

  /** When every attachment is written, each one is written as it is. */
  lemma {:induction false} WrittenFilesAll(rows: seq<Attachment>, ids: seq<int>, readable: int -> bool, utf8Ok: Bytes -> bool)
    requires AllValid(rows, ids)
    requires forall i :: 0 <= i < |ids| ==> Writes(Get(rows, ids[i]), readable(ids[i]), utf8Ok)
    ensures var r := WrittenFiles(rows, ids, readable, utf8Ok);
      && |r| == |ids|
      && forall i :: 0 <= i < |ids| ==> r[i].name == Get(rows, ids[i]).name && Some(r[i].data) == Get(rows, ids[i]).datas
  {
    if ids != [] {
      WrittenFilesAll(rows, ids[..|ids| - 1], readable, utf8Ok);
    }
  }

  /** The answer of `download_zip` for the `ids` argument and the current table. */
  function Serve(ids: Option<string>, rows: seq<Attachment>, readable: int -> bool, utf8Ok: Bytes -> bool): (r: Response)
    ensures ids.None? || ids == Some("") ==> r == NotFound
    ensures r.ZipDownload? ==> DistinctNames(r.entries)
    ensures r.ZipDownload? ==>
      exists attachments :: ParseIds(ids.value) == Ok(attachments) && |r.entries| <= |BinaryIds(rows, attachments)|
    ensures ids.Some? && ids.value != "" && ParseIds(ids.value).Err? ==> r == ServerError(ParseIds(ids.value).error)
    ensures ids.Some? && ids.value != "" && ParseIds(ids.value).Ok? ==>
      (var parsed := ParseIds(ids.value).value;
        && (!AllValid(rows, parsed) ==> r.ServerError?)
        && (AllValid(rows, parsed) && BinaryIds(rows, parsed) == [] ==> r == NotFound)
        && (AllValid(rows, parsed) && BinaryIds(rows, parsed) != [] ==>
              r == ZipDownload(ProbedArchive(WrittenFiles(rows, BinaryIds(rows, parsed), readable, utf8Ok)))))
  {
    if ids.None? || ids.value == "" then NotFound
    else match ParseIds(ids.value)
      case Err(failure) => ServerError(failure)
      case Ok(parsed) =>
        match BrowseBinary(rows, parsed)
        case Err(failure) => ServerError(failure)
        case Ok(attachments) =>
          if attachments == [] then NotFound
          else
            var files := WrittenFiles(rows, attachments, readable, utf8Ok);
            ProbedArchiveDistinct(files);
            ZipDownload(ProbedArchive(files))
  }

  /**
   * One pass of the loop in `download_zip`: a readable attachment whose payload
   * decodes is written under the name the probe loop frees for it; otherwise
   * the archive is left as it is.
   */
  method WriteAttachment(zip: ZipFile, ghost done: seq<ZipEntry>, attachment: Attachment, readable: bool, utf8Ok: Bytes -> bool)
    requires zip.entries == ProbedArchive(done)
    modifies zip
    ensures zip.entries == ProbedArchive(done + Written(attachment, readable, utf8Ok))
  {
    if readable {
      var fileName := attachment.name;
      var existing := zip.FileList();
      assert (set x | x in existing) == NameSet(zip.entries);
      var newName := ProbeName(fileName, existing);
      if attachment.datas.Some? && (attachment.mimetype !in TEXT_MIMETYPES || utf8Ok(attachment.datas.value)) {
        ProbedArchiveStep(done, ZipEntry(fileName, attachment.datas.value));
        zip.WriteStr(newName, attachment.datas.value);
        return;
      }
      // otherwise decoding raised and the attachment is skipped
    }
    assert done + Written(attachment, readable, utf8Ok) == done;
  }

  /**
   * The `with zipfile.ZipFile(...)` block of `download_zip`: each readable
   * attachment is written under the name the probe loop frees for it; one
   * whose payload fails to decode is skipped.
   */
  method WriteArchive(rows: seq<Attachment>, attachments: seq<int>, readable: int -> bool, utf8Ok: Bytes -> bool)
    returns (entries: seq<ZipEntry>)
    requires AllValid(rows, attachments)
    ensures entries == ProbedArchive(WrittenFiles(rows, attachments, readable, utf8Ok))
    ensures DistinctNames(entries)
  {
    var zip := new ZipFile();
    ghost var done: seq<ZipEntry> := [];
    var i := 0;
    while i < |attachments|
      invariant 0 <= i <= |attachments|
      invariant done == WrittenFiles(rows, attachments[..i], readable, utf8Ok)
      invariant zip.entries == ProbedArchive(done)
    {
      var id := attachments[i];
      WrittenFilesStep(rows, attachments, i, readable, utf8Ok);
      WriteAttachment(zip, done, Get(rows, id), readable(id), utf8Ok);
      done := done + Written(Get(rows, id), readable(id), utf8Ok);
      i := i + 1;
    }
    assert attachments[..i] == attachments;
    entries := zip.entries;
    ProbedArchiveDistinct(WrittenFiles(rows, attachments, readable, utf8Ok));
  }

  /**
   * `download_zip`. `readable` gives the outcome of `attachment.check("read")`
   * for each id, and `utf8Ok` whether a payload decodes as UTF-8 text.
   */
  method DownloadZip(ids: Option<string>, rows: seq<Attachment>, readable: int -> bool, utf8Ok: Bytes -> bool)
    returns (r: Response)
    ensures r == Serve(ids, rows, readable, utf8Ok)
  {
    if ids.None? || ids.value == "" {
      return NotFound;
    }
    var parsed := ParseIds(ids.value);
    if parsed.Err? {
      return ServerError(parsed.error);
    }
    var browsed := BrowseBinary(rows, parsed.value);
    if browsed.Err? {
      return ServerError(browsed.error);
    }
    var attachments := browsed.value;
    if attachments == [] {
      return NotFound;
    }
    var entries := WriteArchive(rows, attachments, readable, utf8Ok);
    r := ZipDownload(entries);
  }

  /**
   * When the requested binary attachments have pairwise distinct names and all
   * can be read and decoded, the archive holds each of them, in order, under
   * its own name.
   */
  lemma ServeDistinctNamesKept(ids: string, rows: seq<Attachment>, readable: int -> bool, utf8Ok: Bytes -> bool,
                               attachments: seq<int>)
    requires ids != ""
    requires ParseIds(ids).Ok? && AllValid(rows, ParseIds(ids).value)
    requires attachments == BinaryIds(rows, ParseIds(ids).value) && attachments != []
    requires forall i :: 0 <= i < |attachments| ==> Writes(Get(rows, attachments[i]), readable(attachments[i]), utf8Ok)
    requires forall i, j :: 0 <= i < j < |attachments| ==> Get(rows, attachments[i]).name != Get(rows, attachments[j]).name
    ensures var r := Serve(Some(ids), rows, readable, utf8Ok);
      && r.ZipDownload? && |r.entries| == |attachments|
      && forall i :: 0 <= i < |attachments| ==>
           r.entries[i].name == Get(rows, attachments[i]).name && Some(r.entries[i].data) == Get(rows, attachments[i]).datas
  {
    var files := WrittenFiles(rows, attachments, readable, utf8Ok);
    WrittenFilesAll(rows, attachments, readable, utf8Ok);
    ProbedArchiveKeepsDistinct(files);
  }
}
