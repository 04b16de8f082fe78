# Attachment export and ZIP download, modelled in Dafny

This project models the logic of two small ERP add-ons that work on the
`ir.attachment` table.

- **`dms_attachment_manager`** adds an `ir.attachment.export` record. Its
  selection domain picks the attachments that are not yet exported, fall in a
  creation-date window, have a size and belong to a record. It also excludes
  every attachment whose name contains ".js", ".css", ".json" or ".zip"
  anywhere, in any case. That excludes script, style, JSON and ZIP files,
  and also names such as "a.jsx.pdf" or "x.zipper".
  `action_check_attachments` selects the matching attachments, flags them
  `is_exported` and moves the export from `draft` to `open`.
  `pack_zip` writes the selected files into one ZIP archive, stores it as a
  new attachment of the export and moves it to `done`. `unlink` clears the
  flags again. The export also shows the total size of its selection in
  bytes, KB, MB or GB.
- **`ir_attachment_zip_download`** adds the route
  `/web/attachment/download_zip?ids=1,2,3`. It parses the id list, keeps the
  binary attachments and writes each readable one into an archive. A name
  that is already taken becomes `base (k)ext` for the least free `k`. The
  `attachment.download` helper builds that URL for a selection.
  `_get_filename` renames a record with the same probe loop.

Modules, one per file:

| file | module | contents |
|---|---|---|
| `results.dfy` | `Results` | `Option`, `Result`, `Outcome` |
| `text.dfy` | `Text` | ASCII case folding, `ilike` substring test, `split`/`join` on one character |
| `decimal.dfy` | `Decimal` | `str(int)` and the accepted subset of `int(text)` |
| `file_names.dfy` | `FileNames` | split at the last dot, `"base (k)ext"`, the probe loop `ProbeName` |
| `archive.dfy` | `Archive` | a ZIP archive as a sequence of `(name, bytes)` entries; the probed archive |
| `attachments.dfy` | `Attachments` | the attachment row, the table class, the binary filter |
| `export_domain.dfy` | `ExportDomain` | domain clauses, their meaning, the search |
| `export_size.dfy` | `ExportSize` | size total and unit choice |
| `export_zip.dfy` | `ExportZip` | the entries `_create_zip_data` writes and its counter naming |
| `export_record.dfy` | `ExportRecord` | the `ir.attachment.export` class and its state machine |
| `id_list.dfy` | `IdList` | joining ids with `,` and parsing them back |
| `zip_controller.dfy` | `ZipController` | the `download_zip` route |
| `download_helper.dfy` | `DownloadHelper` | `prepare_attachment`, `download_attachment`, `_get_filename` |

Modelling choices:

- The attachment table is a class whose field `rows` is a sequence. A record's id is its position plus one.
- The ORM search returns the matching ids in the model's default order, descending id.
- A `UserError` or any other exception rolls the transaction back. Every method that can fail therefore leaves the table and the export unchanged on failure.
- Reading a field of an id with no row raises in the ORM. The model reports this as `MissingRecord`.
- A payload that is not valid base64 is an attachment whose `datas` is `None`.
- An unset `datas_fname` is `None`. When the name is empty too, `attachment.name or attachment.datas_fname` is `False` and `"." in original_name` raises a TypeError in `_create_zip_data`; the model reports this as `UnnamedAttachment`.
- `attachment.check("read")` is a parameter `readable: int -> bool`.
- Whether a text payload decodes as UTF-8 is a parameter `utf8Ok`.
- The ZIP encoder of `pack_zip` is a parameter `encode`.
- The current time is a parameter: the string `now` and the day number `today`.

## Model

| member | source | states |
|---|---|---|
| FileNames.SplitExt | src/ir_attachment_zip_download/controllers/attachment_controller.py:31-36 | base + ext is the name; ext is empty exactly when the name has no dot, and otherwise starts with the last dot and holds no other dot |
| FileNames.TakenBound | src/ir_attachment_zip_download/controllers/attachment_controller.py:42-44 | if the candidates 1 .. k-1 are all taken, k is at most one more than the number of taken names, so the probe loop ends |
| FileNames.SuffixedInjective | src/ir_attachment_zip_download/controllers/attachment_controller.py:43 | different counters give different "base (k)ext" candidates |
| FileNames.FreeName | src/ir_attachment_zip_download/controllers/attachment_controller.py:38-44 | the chosen name is never taken; it is the name itself when free, otherwise "base (k)ext" for the least free k >= 1 |
| FileNames.ProbeName | src/ir_attachment_zip_download/controllers/attachment_controller.py:38-44 | the probe loop ends on a name not among the existing ones, keeps a free name unchanged, and agrees with the least-free-counter definition |
| Archive.ZipFile.FileList | src/ir_attachment_zip_download/controllers/attachment_controller.py:38 | one file name per entry, in order, each the name of that entry |
| Archive.ZipFile.WriteStr | src/ir_attachment_zip_download/controllers/attachment_controller.py:53 | writing appends exactly one entry with that name and payload |
| Archive.ProbedArchive | src/ir_attachment_zip_download/controllers/attachment_controller.py:28-53 | writing files one by one with the probe loop keeps their number, order and payloads |
| Archive.ProbedArchiveNaming | src/ir_attachment_zip_download/controllers/attachment_controller.py:38-44 | each entry keeps its file's name when no earlier entry took it, and otherwise takes "base (k)ext" with the least free k |
| Archive.ProbedArchiveDistinct | src/ir_attachment_zip_download/controllers/attachment_controller.py:38-53 | all entry names of the archive are pairwise distinct |
| Archive.ProbedArchiveKeepsDistinct | src/ir_attachment_zip_download/controllers/attachment_controller.py:38-53 | files whose names are already pairwise distinct are written unrenamed |
| Text.JoinSplit | src/ir_attachment_zip_download/controllers/attachment_controller.py:16 | joining the pieces of a split with the separator gives back the text |
| Text.SplitJoin | src/ir_attachment_zip_download/controllers/attachment_controller.py:16 | splitting a join of separator-free pieces gives back the pieces |
| Decimal.IntToString | src/ir_attachment_zip_download/models/attachment_download.py:25 | str(i) is digits with a leading "-" exactly for negative i, and has no leading zero |
| Decimal.ParseInt | src/ir_attachment_zip_download/controllers/attachment_controller.py:16 | int(text) accepts only an optional sign followed by at least one digit; a digit string gives a non-negative value and a single digit gives that digit |
| Decimal.ParseIntAppendDigit | src/ir_attachment_zip_download/controllers/attachment_controller.py:16 | one more digit multiplies the value by ten and adds the digit; with the single-digit case this fixes the value of every digit string |
| Decimal.ParseIntLeadingZero | src/ir_attachment_zip_download/controllers/attachment_controller.py:16 | a leading zero does not change the value, so `int("007") == 7` |
| Decimal.ParseIntSigned | src/ir_attachment_zip_download/controllers/attachment_controller.py:16 | a '+' keeps the value of the digits and a '-' negates it |
| Decimal.ParseIntToString | src/ir_attachment_zip_download/models/attachment_download.py:25 | int(str(i)) == i for every integer |
| IdList.JoinIds | src/ir_attachment_zip_download/models/attachment_download.py:25 | a non-empty id list joins to a non-empty text |
| IdList.ParsePieces | src/ir_attachment_zip_download/controllers/attachment_controller.py:16 | parsing succeeds exactly when every piece is a number, then yields one id per piece in order; otherwise it fails on a piece that is not a number |
| IdList.ParseIds | src/ir_attachment_zip_download/controllers/attachment_controller.py:16 | the empty text fails; otherwise parsing succeeds exactly when every comma-separated piece is a number, and yields one id per piece, in order |
| IdList.ParseJoinIds | src/ir_attachment_zip_download/controllers/attachment_controller.py:16 | the controller's parse inverts the helper's comma join |
| Attachments.FirstMissing | src/ir_attachment_zip_download/controllers/attachment_controller.py:17-21 | no id is reported missing exactly when every id names a row |
| Attachments.BinaryIds | src/ir_attachment_zip_download/controllers/attachment_controller.py:17-21 | the filter keeps exactly the binary ids, never adds any |
| Attachments.BinaryIdsAppend | src/ir_attachment_zip_download/controllers/attachment_controller.py:17-21 | the filter keeps order: filtering a concatenation concatenates the filtered parts |
| Attachments.BinaryIdsIdempotent | src/ir_attachment_zip_download/controllers/attachment_controller.py:17-21 | filtering again the ids the helper already filtered changes nothing |
| Attachments.BrowseBinary | src/ir_attachment_zip_download/controllers/attachment_controller.py:17-21 | browsing fails exactly when some id names no row, and otherwise yields the binary ids |
| Attachments.AttachmentTable.SetExported | src/dms_attachment_manager/models/ir_attachment_export.py:108 | only the flag of the one record changes |
| Attachments.AttachmentTable.WriteExported | src/dms_attachment_manager/models/ir_attachment_export.py:174 | the flag is set on exactly the listed records and nothing else changes |
| Attachments.AttachmentTable.Create | src/dms_attachment_manager/models/ir_attachment_export.py:161-170 | one row is appended and its new id names it |
| Attachments.SetFlag | src/dms_attachment_manager/models/ir_attachment_export.py:174 | the listed records get the flag; every other record and every other column is unchanged |
| Attachments.SetFlagStep | src/dms_attachment_manager/models/ir_attachment_export.py:107-108 | setting the flag record by record amounts to one bulk write |
| Attachments.AttachmentTable.SetExportedEach | src/dms_attachment_manager/models/ir_attachment_export.py:107-108 | after the loop the table equals SetFlag of the old table: the listed records are flagged and nothing else changes |
| ZipController.Written | src/ir_attachment_zip_download/controllers/attachment_controller.py:30-53 | one attachment contributes its name and payload exactly when it is readable, its payload decodes and a text payload is valid UTF-8, and nothing otherwise |
| ZipController.WrittenFiles | src/ir_attachment_zip_download/controllers/attachment_controller.py:28-55 | skipping never writes more files than there are attachments |
| ZipController.WrittenFilesSplit | src/ir_attachment_zip_download/controllers/attachment_controller.py:28-55 | each attachment contributes, at its own position, exactly what Written gives for it: a failing one adds nothing, a passing one adds its own entry |
| ZipController.WrittenFilesStep | src/ir_attachment_zip_download/controllers/attachment_controller.py:28-55 | one more attachment appends what Written gives for it |
| ZipController.WrittenFilesSound | src/ir_attachment_zip_download/controllers/attachment_controller.py:28-55 | every entry written is that of a requested attachment which passed the checks |
| ZipController.WrittenFilesNone | src/ir_attachment_zip_download/controllers/attachment_controller.py:54-55 | when every attachment fails a check, nothing is written |
| ZipController.WrittenFilesSnoc | src/ir_attachment_zip_download/controllers/attachment_controller.py:28-55 | the selection extended by one attachment writes what it wrote before followed by what that attachment contributes |
| ZipController.WrittenFilesAppend | src/ir_attachment_zip_download/controllers/attachment_controller.py:28-55 | skipping preserves order: the files written for a concatenation concatenate |
| ZipController.WrittenFilesAll | src/ir_attachment_zip_download/controllers/attachment_controller.py:28-55 | when no attachment fails, each is written with its own name and payload |
| ZipController.Serve | src/ir_attachment_zip_download/controllers/attachment_controller.py:12-55 | a missing or empty ids argument is not-found; an unparsable one or an id without a row is a server error; no binary attachment is not-found; otherwise the answer is the probed archive of the files written for the binary ids, with pairwise distinct names |
| ZipController.WriteAttachment | src/ir_attachment_zip_download/controllers/attachment_controller.py:29-55 | one pass of the loop appends to the archive exactly what Written gives for the attachment, under the name probed against the entries already written; a skipped attachment leaves the archive unchanged |
| ZipController.WriteArchive | src/ir_attachment_zip_download/controllers/attachment_controller.py:26-55 | the loop, which probes a name and skips on failure, writes exactly the probed archive of the files that pass the checks, with pairwise distinct names |
| ZipController.DownloadZip | src/ir_attachment_zip_download/controllers/attachment_controller.py:12-55 | the route's checks and its archive loop yield exactly the answer Serve defines |
| ZipController.ServeDistinctNamesKept | src/ir_attachment_zip_download/controllers/attachment_controller.py:28-53 | with distinct names and no failures, the archive holds every requested binary attachment in order under its own name |
| DownloadHelper.PrepareAttachment | src/ir_attachment_zip_download/models/attachment_download.py:9-28 | an empty selection raises "No attachments selected."; a selection without binary attachments raises; it succeeds exactly when every id names a row and one of them is binary, and then opens the route for the binary ids joined by ",", in order |
| DownloadHelper.DownloadAttachment | src/ir_attachment_zip_download/models/attachment_download.py:30-51 | without binary records it raises; the "No valid attachments" error can never be returned; it succeeds exactly when every id names a row and one of them is binary, and then opens the route for the binary ids |
| DownloadHelper.PreparedUrlServed | src/ir_attachment_zip_download/models/attachment_download.py:22-28 | the route parses the prepared URL back to exactly the binary ids and answers with their archive |
| DownloadHelper.DownloadRecord.GetFilename | src/ir_attachment_zip_download/models/attachment_download.py:57-76 | the new name is not among the existing names; a free name is kept; a taken one becomes "base (k)ext" for the least free k |
| ExportDomain.ExcludedFilesDomain | src/dms_attachment_manager/models/ir_attachment_export.py:56-62 | a row passes these clauses exactly when its name contains none of ".js", ".css", ".json", ".zip" in any case |
| ExportDomain.MatchesAppend | src/dms_attachment_manager/models/ir_attachment_export.py:96 | extending a domain conjoins the clauses |
| ExportDomain.DomainCharacterisation | src/dms_attachment_manager/models/ir_attachment_export.py:80-98 | a row matches the domain exactly when it is not exported, created within both bounds, larger than 0, attached to a record, of a chosen model if any, and its name contains none of the excluded extensions |
| ExportDomain.Search | src/dms_attachment_manager/models/ir_attachment_export.py:101 | the search returns exactly the ids of the matching rows, each naming a row, in descending order |
| ExportDomain.ArchiveNeverSelected | src/dms_attachment_manager/models/ir_attachment_export.py:56-62 | a file whose name ends in ".zip" never matches an export's domain |
| ExportDomain.CheckedRowsNoLongerMatch | src/dms_attachment_manager/models/ir_attachment_export.py:100-111 | once the selected rows are flagged, the same domain selects nothing, so repeating the check raises |
| ExportDomain.UnflagRestores | src/dms_attachment_manager/models/ir_attachment_export.py:173-175 | clearing the flag on a selection restores the table the selection was made on |
| ExportSize.SizeSum | src/dms_attachment_manager/models/ir_attachment_export.py:116-118 | the empty selection totals 0 and one record totals its `file_size or 0`; with SizeSumAppend this fixes the total as the sum of the sizes; with no negative size the total is not negative |
| ExportSize.SizeSumAppend | src/dms_attachment_manager/models/ir_attachment_export.py:113-119 | the total over two lists is the sum of their totals |
| ExportSize.SizeSumBounds | src/dms_attachment_manager/models/ir_attachment_export.py:113-119 | with no negative size, the total is at least the size of each record |
| ExportSize.SizeSumAtLeastCount | src/dms_attachment_manager/models/ir_attachment_export.py:116-118 | when every record has a size, counted as 0 when missing, of at least one byte, the total is at least the number of records |
| ExportSize.FormatSize | src/dms_attachment_manager/models/ir_attachment_export.py:121-130 | below 1024 the text is str() of the size followed by " bytes", and it parses back to the size; otherwise the amount times the unit is the size, at least 1 and below 1024 except in GB |
| ExportZip.OriginalName | src/dms_attachment_manager/models/ir_attachment_export.py:138 | the attachment's name when it is not empty, otherwise its datas_fname; unset (`False`) exactly when the name is empty and datas_fname is unset |
| ExportZip.ExportFailure | src/dms_attachment_manager/models/ir_attachment_export.py:137-140 | an attachment raises exactly when it is not exportable: an undecodable payload first, otherwise `"." in False` when it has no original name |
| ExportZip.FirstFailure | src/dms_attachment_manager/models/ir_attachment_export.py:136-140 | nothing is raised exactly when every attachment decodes and has an original name; what is raised is the failure of one of the selected attachments |
| ExportZip.UnnamedAttachmentFails | src/dms_attachment_manager/models/ir_attachment_export.py:137-140 | an attachment that decodes but has an empty name and no datas_fname raises the TypeError when no earlier attachment failed |
| ExportZip.ExportFiles | src/dms_attachment_manager/models/ir_attachment_export.py:136-138 | one file per attachment, in order, named by name or else datas_fname, with the decoded payload |
| ExportZip.FirstFailureAppend | src/dms_attachment_manager/models/ir_attachment_export.py:136-140 | the first failure of a concatenation is the first failure of its first part, if any, else that of the second |
| ExportZip.ExportFilesSnoc | src/dms_attachment_manager/models/ir_attachment_export.py:136-138 | one more attachment that decodes and has a name appends exactly its file |
| ExportZip.ExportFilesStep | src/dms_attachment_manager/models/ir_attachment_export.py:136-138 | looking at one more attachment either finds the first failure or adds exactly its file |
| ExportZip.CounterNames | src/dms_attachment_manager/models/ir_attachment_export.py:143-150 | one name per attachment; the first occurrence of a name keeps it; every repeat gets a different name |
| ExportZip.CounterArchive | src/dms_attachment_manager/models/ir_attachment_export.py:136-152 | one entry per file, in order, with its payload |
| ExportZip.CounterArchiveStep | src/dms_attachment_manager/models/ir_attachment_export.py:143-152 | one more file appends one entry named for its k-th repeat, k being how often its name was seen |
| ExportZip.CountsStep | src/dms_attachment_manager/models/ir_attachment_export.py:143-150 | the counter update keeps each seen name mapped to its number of earlier repeats |
| ExportZip.CountedName | src/dms_attachment_manager/models/ir_attachment_export.py:143-150 | the k-th repeat of a name gets "base (k)ext", the first occurrence its own name, and the counters stay exact |
| ExportZip.CounterNamingCollides | src/dms_attachment_manager/models/ir_attachment_export.py:143-150 | the names "a", "a", "a (1)" give two entries named "a (1)" |
| ExportZip.CounterArchiveNotDistinct | src/dms_attachment_manager/models/ir_attachment_export.py:143-152 | so the archive written as in the source can hold two entries with one name |
| ExportZip.CorrectedArchiveDistinct | src/dms_attachment_manager/models/ir_attachment_export.py:136-152 | with the probe loop, the archive holds one entry per attachment with pairwise distinct names |
| ExportRecord.ZipName | src/dms_attachment_manager/models/ir_attachment_export.py:159 | the archive's name ends in ".zip" |
| ExportRecord.ArchiveAttachmentNeverSelected | src/dms_attachment_manager/models/ir_attachment_export.py:157-170 | the archive attachment of an export is never selected by any export |
| ExportRecord.SelectionTotalAtLeastCount | src/dms_attachment_manager/models/ir_attachment_export.py:91 | every selected attachment has a size of at least one byte, so a selection's total is at least its number of attachments |
| ExportRecord.AttachmentExport.constructor | src/dms_attachment_manager/models/ir_attachment_export.py:33-37 | a new export is in state draft, unnamed and without attachments |
| ExportRecord.AttachmentExport.TotalAttachmentSize | src/dms_attachment_manager/models/ir_attachment_export.py:113-119 | the shown total is the summed size: in bytes, printed exactly, below 1024, otherwise an amount whose product with its unit is the sum |
| ExportRecord.AttachmentExport.BuildDomain | src/dms_attachment_manager/models/ir_attachment_export.py:80-98 | the domain built clause by clause matches a row exactly when the row meets the selection criteria |
| ExportRecord.AttachmentExport.GenerateName | src/dms_attachment_manager/models/ir_attachment_export.py:177-181 | an unnamed export is named "File Export " + time; a named one keeps its name |
| ExportRecord.AttachmentExport.ActionCheckAttachments | src/dms_attachment_manager/models/ir_attachment_export.py:100-111 | with no match it raises and nothing changes; otherwise it selects exactly the matching rows, flags exactly them, names the export only if unnamed, moves to open, and a repeated search finds nothing |
| ExportRecord.AttachmentExport.CreateZipDataAsWritten | src/dms_attachment_manager/models/ir_attachment_export.py:132-155 | the first attachment that does not decode or has no original name raises its failure; otherwise the archive is the counter-named one, one entry per attachment in order |
| ExportRecord.AttachmentExport.CreateZipData | src/dms_attachment_manager/models/ir_attachment_export.py:132-155 | the first attachment that does not decode or has no original name raises its failure; otherwise one entry per attachment in order, under pairwise distinct names |
| ExportRecord.AttachmentExport.PackZipAsWritten | src/dms_attachment_manager/models/ir_attachment_export.py:157-171 | fails exactly when `_create_zip_data` raises, with its failure, and then nothing changes; on success the state is done and exactly one attachment is added, named after the export with ".zip", attached to the export, holding the counter-named archive |
| ExportRecord.AttachmentExport.PackZip | src/dms_attachment_manager/models/ir_attachment_export.py:157-171 | as PackZipAsWritten, but the stored archive is the probe-named one with pairwise distinct entry names |
| ExportRecord.AttachmentExport.Unlink | src/dms_attachment_manager/models/ir_attachment_export.py:173-175 | the flag is cleared on exactly the export's attachments and nothing else changes |

## Left out

- ZIP compression, the archive container format and base64 coding are not modelled. An archive is its sequence of `(name, bytes)` entries, and `pack_zip` turns it into bytes with an `encode` parameter.
- The ORM is abstracted. `search` is a function over the table. `browse`/`filtered` is a filter that fails on an id without a row. The `ilike` search in `_get_filename` is its input list of existing names.
- `_get_models`, `_onchange_model_ids` and the `model_ids_domain` field are left out. They are a grouped database query used only to offer model choices in the form.
- `_get_downloadable_attachments` is left out. It only browses the context ids and has no logic of its own.
- `unlink` also deletes the export record itself. The model keeps only its effect on the attachment flags.
- The controller's response headers, its archive file name (built from the clock) and `content_disposition` are left out. Only the archive entries and the not-found answers are modelled.
- Translation with `_()` is the identity.
- The clock is a parameter. `_generate_name` takes the formatted time as the string `now`, and `create_date` is a day number.
- `create_date` is a timestamp in the source and is compared with the start and end dates. The model compares day numbers, so the whole end day is admitted.
- The UTF-8 decoding of `text/csv` and `text/plain` payloads is the predicate `utf8Ok`. A decoded text written back into the archive is the same bytes.
- ExportRecord.AttachmentExport.PackZip: packs with the corrected probe naming, not the name counter `pack_zip` reaches through `_create_zip_data`. For "a", "a", "a (1)" it stores "a", "a (1)", "a (1) (1)" where the source stores "a", "a (1)", "a (1)". The source's behaviour is ExportRecord.AttachmentExport.PackZipAsWritten.
- ZipController.WrittenFiles: its own contract bounds only the number of entries. What each attachment contributes is stated by ZipController.WrittenFilesSplit, ZipController.WrittenFilesSound and ZipController.WrittenFilesNone.
- Decimal.ParseInt: accepts only an optional sign followed by ASCII digits. Python's `int` also accepts surrounding whitespace, underscores between digits and non-ASCII digits.
- Text.ContainsIgnoreCase: folds only ASCII letters. The database's `ilike` folds case by its collation.
- ExportSize.FormatSize: states the exact ratio and unit. The two-decimal rounding of `"{:.2f}"` is not modelled.
- `download_attachment` as written raises on every non-empty `self`: it filters `attachment.download` records on `x.type` (attachment_download.py:31), a field that model does not declare, so Odoo raises an AttributeError; on an empty `self` it raises the "No attachments available" UserError. The model describes the evidently intended behaviour instead and reads the ids of `self` as attachment rows.
- `_get_filename` as written raises on every record: it reads `self.name` (attachment_download.py:60), a field `attachment.download` does not declare. The model describes the evidently intended behaviour instead and gives `DownloadRecord` a name. The method returns nothing, and so does the model.
- The download helper's test at src/ir_attachment_zip_download/tests/test_attachment_download.py:39-47 expects a notification for an empty selection. The code raises a `UserError`, and the model follows the code.

## Findings

| source | as written | input that shows it | evidently intended | confidence | as-written member | corrected member |
|---|---|---|---|---|---|---|
| src/dms_attachment_manager/models/ir_attachment_export.py:143-152 | a per-name counter names the k-th repeat of a name "base (k)ext" without checking whether that name is already an entry | three selected attachments named "a", "a" and "a (1)" give two archive entries named "a (1)" | every attachment gets an entry with a name of its own, as the download route's probe loop ensures | not executed | ExportZip.CounterNamingCollides | ExportRecord.AttachmentExport.CreateZipData |
