/**
 * The `ir.attachment.export` record: its fields, the selection check that
 * moves it from draft to open, the packing step that moves it to done, and
 * its deletion, which releases the attachments it had selected.
 */
module ExportRecord {
  import opened Results
  import opened Decimal
  import opened FileNames
  import opened Archive
  import opened Attachments
  import opened ExportDomain
  import opened ExportSize
  import opened ExportZip

  datatype State = Draft | Open | Done

  const NO_ATTACHMENTS_FOUND := "No attachments found with the given criteria."
  const EXPORT_NAME_PREFIX := "File Export "
  const EXPORT_MODEL := "ir.attachment.export"

  /** `"{}.zip".format(name)`; an unset name formats as "False". */
  function ZipName(name: Option<string>): (r: string)
    ensures exists prefix :: r == prefix + ".zip"
  {
    var prefix := if name.None? then "False" else name.value;
    prefix + ".zip"
  }

  /** The attachment `pack_zip` creates for the archive bytes. */
  function ArchiveAttachment(name: Option<string>, exportId: int, today: int, zipBytes: Bytes): Attachment
  {
    Attachment(
      name := ZipName(name),
      datasFname := Some(ZipName(name)),
      resModel := Some(EXPORT_MODEL),
      resId := Some(exportId),
      createDate := today,
      fileSize := Some(|zipBytes|),
      isExported := false,
      kind := Binary,
      mimetype := "application/zip",
      datas := Some(zipBytes))
  }

  /** `not self.name`: the name is unset or empty. */
  predicate Unnamed(name: Option<string>)
  {
    name.None? || name.value == ""
  }

  /** The archive attachment of an export is never selected by any export. */
  lemma ArchiveAttachmentNeverSelected(name: Option<string>, exportId: int, today: int, zipBytes: Bytes,
                                       models: seq<string>, startDate: int, endDate: int)
    ensures !Matches(ArchiveAttachment(name, exportId, today, zipBytes), GetDomain(models, startDate, endDate))
  {
    var prefix :| ZipName(name) == prefix + ".zip";
    ArchiveNeverSelected(ArchiveAttachment(name, exportId, today, zipBytes), prefix, models, startDate, endDate);
  }

  /**
   * The domain admits only rows with a positive size, so the total size of a
   * selection is at least its number of attachments: a non-empty selection
   * never totals 0 bytes.
   */
  lemma SelectionTotalAtLeastCount(rows: seq<Attachment>, models: seq<string>, startDate: int, endDate: int)
    ensures var found := Search(rows, GetDomain(models, startDate, endDate));
      SizeSum(rows, found) >= |found|
  {
    var found := Search(rows, GetDomain(models, startDate, endDate));
    forall i | 0 <= i < |found|
      ensures SizeOrZero(Get(rows, found[i])) >= 1
    {
      assert found[i] in found;
      DomainCharacterisation(Get(rows, found[i]), models, startDate, endDate);
    }
    SizeSumAtLeastCount(rows, found);
  }

  class AttachmentExport {
    const id: int
    var name: Option<string>
    var startDate: int
    var endDate: int
    var modelNames: seq<string>
    var attachmentIds: seq<int>
    var state: State

    /** A new export: no name, no attachments, state "draft". */
    constructor (id: int, startDate: int, endDate: int, modelNames: seq<string>)
      ensures this.id == id && this.startDate == startDate && this.endDate == endDate
      ensures this.modelNames == modelNames
      ensures name == None && attachmentIds == [] && state == Draft
    {
      this.id := id;
      this.startDate := startDate;
      this.endDate := endDate;
      this.modelNames := modelNames;
      name := None;
      attachmentIds := [];
      state := Draft;
    }

    function Domain(): seq<Clause>
      reads this
    {
      GetDomain(modelNames, startDate, endDate)
    }

    /**
     * `_get_domain`, built clause by clause: the model clause when models are
     * chosen, then the fixed criteria, then the excluded file names. A row
     * matches the result exactly when it meets the selection criteria.
     */
    method BuildDomain() returns (domain: seq<Clause>)
      ensures domain == Domain()
      ensures forall a :: Matches(a, domain) <==> Selectable(a, modelNames, startDate, endDate)
    {
      domain := [];
      if modelNames != [] {
        domain := domain + [ResModelIn(modelNames)];
      }
      domain := domain + [IsExportedIs(false), CreatedOnOrAfter(startDate), CreatedOnOrBefore(endDate),
                          FileSizeAbove(0), ResIdSet, ResModelSet];
      domain := domain + ExcludedFilesDomain();
      assert domain == GetDomain(modelNames, startDate, endDate);
      forall a
        ensures Matches(a, domain) <==> Selectable(a, modelNames, startDate, endDate)
      {
        DomainCharacterisation(a, modelNames, startDate, endDate);
      }
    }

    /** Every selected id names a row of the table. */
    predicate Valid(table: AttachmentTable)
      reads this, table
    {
      AllValid(table.rows, attachmentIds)
    }

    /** The computed `total_attachment_size`. */
    function TotalAttachmentSize(table: AttachmentTable): (r: SizeText)
      reads this, table
      requires Valid(table)
      ensures r.Bytes? <==> SizeSum(table.rows, attachmentIds) < KIB
      ensures r.Bytes? ==> r.text == IntToString(SizeSum(table.rows, attachmentIds)) + " bytes"
      ensures r.Scaled? ==> r.amount * UnitBytes(r.unit) as real == SizeSum(table.rows, attachmentIds) as real
    {
      FormatSize(SizeSum(table.rows, attachmentIds))
    }

    /** `_generate_name`: an unnamed export is named after the current time. */
    method GenerateName(now: string)
      modifies this`name
      ensures name == if Unnamed(old(name)) then Some(EXPORT_NAME_PREFIX + now) else old(name)
    {
      if Unnamed(name) {
        name := Some(EXPORT_NAME_PREFIX + now);
      }
    }

    /**
     * `action_check_attachments`. With no match it raises, which rolls the
     * whole transaction back, so nothing changes. Otherwise the export selects
     * exactly the matching rows, flags each of them as exported, gets a name
     * if it had none, and becomes "open".
     */
    method ActionCheckAttachments(table: AttachmentTable, now: string) returns (outcome: Outcome<Failure>)
      modifies this, table
      ensures startDate == old(startDate) && endDate == old(endDate) && modelNames == old(modelNames)
      ensures outcome.Fail? <==> Search(old(table.rows), Domain()) == []
      ensures outcome.Fail? ==>
                && outcome.error == UserError(NO_ATTACHMENTS_FOUND)
                && table.rows == old(table.rows)
                && attachmentIds == old(attachmentIds) && name == old(name) && state == old(state)
      ensures outcome.Pass? ==>
                && attachmentIds == Search(old(table.rows), Domain())
                && table.rows == SetFlag(old(table.rows), attachmentIds, true)
                && name == (if Unnamed(old(name)) then Some(EXPORT_NAME_PREFIX + now) else old(name))
                && state == Open
                && Valid(table)
                && Search(table.rows, Domain()) == []
    {
      var domain := BuildDomain();
      var found := Search(table.rows, domain);
      if found == [] {
        return Fail(UserError(NO_ATTACHMENTS_FOUND));
      }
      attachmentIds := found;
      ghost var before := table.rows;
      table.SetExportedEach(attachmentIds, true);
      CheckedRowsNoLongerMatch(before, modelNames, startDate, endDate);
      GenerateName(now);
      state := Open;
      outcome := Pass;
    }

    /**
     * `_create_zip_data` as written: one entry per selected attachment, in
     * order; a `name_count` dictionary numbers the repeats of each original
     * name. A payload that does not decode raises, and so does an attachment
     * with neither a name nor a datas_fname.
     */
    method CreateZipDataAsWritten(table: AttachmentTable) returns (r: Result<seq<ZipEntry>, Failure>)
      requires Valid(table)
      ensures var bad := FirstFailure(table.rows, attachmentIds);
        && (bad.Some? ==> r == Err(bad.value))
        && (bad.None? ==> r == Ok(CounterArchive(ExportFiles(table.rows, attachmentIds))))
    {
      var rows, ids := table.rows, attachmentIds;
      var zip := new ZipFile();
      var nameCount: map<string, nat> := map[];
      ghost var done: seq<ZipEntry> := [];
      var i := 0;
      assert ids[..0] == [];
      assert ExportFiles(rows, []) == [] && Names([]) == [];
      while i < |ids|
        invariant 0 <= i <= |ids|
        invariant FirstFailure(rows, ids[..i]).None?
        invariant done == ExportFiles(rows, ids[..i])
        invariant zip.entries == CounterArchive(done)
        invariant CountsOf(nameCount, Names(done))
      {
        var attachment := Get(rows, ids[i]);
        ExportFilesStep(rows, ids, i);
        if attachment.datas.None? {
          return Err(UndecodablePayload(ids[i]));
        }
        var content := attachment.datas.value;
        var originalName := OriginalName(attachment);
        if originalName.None? {
          return Err(UnnamedAttachment(ids[i]));
        }
        var original := originalName.value;
        var fileName;
        fileName, nameCount := CountedName(nameCount, original, Names(done));
        CounterArchiveStep(done, ZipEntry(original, content));
        zip.WriteStr(fileName, content);
        done := done + [ZipEntry(original, content)];
        i := i + 1;
      }
      assert ids[..i] == ids;
      r := Ok(zip.entries);
    }

    /**
     * `_create_zip_data` with the naming corrected: each entry takes the first
     * free name the probe loop finds among the entries already written.
     */
    method CreateZipData(table: AttachmentTable) returns (r: Result<seq<ZipEntry>, Failure>)
      requires Valid(table)
      ensures var bad := FirstFailure(table.rows, attachmentIds);
        && (bad.Some? ==> r == Err(bad.value))
        && (bad.None? ==> r == Ok(ProbedArchive(ExportFiles(table.rows, attachmentIds))))
      ensures r.Ok? ==> DistinctNames(r.value) && |r.value| == |attachmentIds|
    {
      var rows, ids := table.rows, attachmentIds;
      var zip := new ZipFile();
      var i := 0;
      while i < |ids|
        invariant 0 <= i <= |ids|
        invariant FirstFailure(rows, ids[..i]).None?
        invariant zip.entries == ProbedArchive(ExportFiles(rows, ids[..i]))
      {
        var attachment := Get(rows, ids[i]);
        ExportFilesStep(rows, ids, i);
        if attachment.datas.None? {
          return Err(UndecodablePayload(ids[i]));
        }
        var content := attachment.datas.value;
        var originalName := OriginalName(attachment);
        if originalName.None? {
          return Err(UnnamedAttachment(ids[i]));
        }
        var original := originalName.value;
        var existing := zip.FileList();
        var fileName := ProbeName(original, existing);
        ProbedArchiveStep(ExportFiles(rows, ids[..i]), ZipEntry(original, content));
        zip.WriteStr(fileName, content);
        i := i + 1;
      }
      assert ids[..i] == ids;
      CorrectedArchiveDistinct(rows, ids);
      r := Ok(zip.entries);
    }

    /**
     * `pack_zip` as written: the archive stored is the one `_create_zip_data`
     * builds with its name counter, so two of its entries can share a name.
     */
    method PackZipAsWritten(table: AttachmentTable, today: int, encode: seq<ZipEntry> -> Bytes) returns (outcome: Outcome<Failure>)
      requires Valid(table)
      modifies this`state, table
      ensures outcome.Fail? <==> FirstFailure(old(table.rows), attachmentIds).Some?
      ensures outcome.Fail? ==>
                && outcome.error == FirstFailure(old(table.rows), attachmentIds).value
                && table.rows == old(table.rows) && state == old(state)
      ensures outcome.Pass? ==>
                && state == Done
                && table.rows == old(table.rows)
                     + [ArchiveAttachment(name, id, today, encode(CounterArchive(ExportFiles(old(table.rows), attachmentIds))))]
                && Valid(table)
    {
      var zipData := CreateZipDataAsWritten(table);
      if zipData.Err? {
        return Fail(zipData.error);
      }
      var created := table.Create(ArchiveAttachment(name, id, today, encode(zipData.value)));
      state := Done;
      outcome := Pass;
    }

    /**
     * `pack_zip` with the corrected naming: archives the selected
     * attachments under pairwise distinct names, stores the archive as a new
     * attachment of this export and sets the state to "done". A payload that
     * does not decode, or an attachment without a name or datas_fname,
     * raises and rolls everything back.
     */
    method PackZip(table: AttachmentTable, today: int, encode: seq<ZipEntry> -> Bytes) returns (outcome: Outcome<Failure>)
      requires Valid(table)
      modifies this`state, table
      ensures outcome.Fail? <==> FirstFailure(old(table.rows), attachmentIds).Some?
      ensures outcome.Fail? ==>
                && outcome.error == FirstFailure(old(table.rows), attachmentIds).value
                && table.rows == old(table.rows) && state == old(state)
      ensures outcome.Pass? ==>
                && state == Done
                && table.rows == old(table.rows)
                     + [ArchiveAttachment(name, id, today, encode(ProbedArchive(ExportFiles(old(table.rows), attachmentIds))))]
                && Valid(table)
    {
      var zipData := CreateZipData(table);
      if zipData.Err? {
        return Fail(zipData.error);
      }
      var created := table.Create(ArchiveAttachment(name, id, today, encode(zipData.value)));
      state := Done;
      outcome := Pass;
    }

    /** `unlink`: the selected attachments are flagged as not exported again. */
    method Unlink(table: AttachmentTable)
      modifies table
      ensures table.rows == SetFlag(old(table.rows), attachmentIds, false)
    {
      table.WriteExported(attachmentIds, false);
    }
  }
}
