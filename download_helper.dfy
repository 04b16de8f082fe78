/**
 * The `attachment.download` helper model: the actions that send the browser
 * to the ZIP route for the selected attachments, and `_get_filename`, which
 * renames a record so that its name is not already taken.
 */
module DownloadHelper {
  import opened Results
  import opened FileNames
  import opened Archive
  import opened Attachments
  import opened IdList
  import opened ZipController

  const DOWNLOAD_ROUTE := "/web/attachment/download_zip?ids="
  const NO_SELECTION := "No attachments selected."
  const NO_BINARY := "No binary attachments available for download."
  const NONE_AVAILABLE :=
    "\n                No attachments available for download.\n"
    + "                Only binary attachments that have not been downloaded are allowed.\n"
    + "                "
  const NO_VALID := "No valid attachments selected for download."

  /** An `ir.actions.act_url` action. */
  datatype UrlAction = UrlAction(url: string, target: string)

  /** The action that opens the ZIP route for these ids. */
  function DownloadAction(ids: seq<int>): UrlAction
  {
    UrlAction(DOWNLOAD_ROUTE + JoinIds(ids), "self")
  }

  /**
   * `prepare_attachment` for the context's `active_ids`: an empty selection
   * and a selection without binary attachments raise; otherwise the route is
   * opened for the binary ones.
   */
  function PrepareAttachment(activeIds: seq<int>, rows: seq<Attachment>): (r: Result<UrlAction, Failure>)
    ensures activeIds == [] ==> r == Err(UserError(NO_SELECTION))
    ensures r.Ok? <==> AllValid(rows, activeIds) && BinaryIds(rows, activeIds) != []
    ensures activeIds != [] && AllValid(rows, activeIds) && BinaryIds(rows, activeIds) == [] ==>
              r == Err(UserError(NO_BINARY))
    ensures r.Ok? ==>
              && AllValid(rows, activeIds)
              && BinaryIds(rows, activeIds) != []
              && r.value.url == DOWNLOAD_ROUTE + JoinIds(BinaryIds(rows, activeIds))
              && r.value.target == "self"
  {
    if activeIds == [] then Err(UserError(NO_SELECTION))
    else match BrowseBinary(rows, activeIds)
      case Err(failure) => Err(failure)
      case Ok(attachments) =>
        if attachments == [] then Err(UserError(NO_BINARY))
        else Ok(DownloadAction(attachments))
  }

  /**
   * `download_attachment` on the records `selfIds`: without binary records it
   * raises; the second check, on the joined id text, can never fire.
   */
  function DownloadAttachment(selfIds: seq<int>, rows: seq<Attachment>): (r: Result<UrlAction, Failure>)
    ensures AllValid(rows, selfIds) && BinaryIds(rows, selfIds) == [] ==> r == Err(UserError(NONE_AVAILABLE))
    ensures r.Ok? <==> AllValid(rows, selfIds) && BinaryIds(rows, selfIds) != []
    ensures r != Err(UserError(NO_VALID))
    ensures r.Ok? ==>
              && AllValid(rows, selfIds)
              && BinaryIds(rows, selfIds) != []
              && r.value == DownloadAction(BinaryIds(rows, selfIds))
  {
    match BrowseBinary(rows, selfIds)
    case Err(failure) => Err(failure)
    case Ok(items) =>
      if items == [] then Err(UserError(NONE_AVAILABLE))
      else
        var ids := JoinIds(items);
        if ids == "" then Err(UserError(NO_VALID))
        else Ok(UrlAction(DOWNLOAD_ROUTE + ids, "self"))
  }

  /**
   * The URL `prepare_attachment` builds is served: the route parses back
   * exactly the binary ids, in order, and answers with their archive.
   */
  lemma PreparedUrlServed(activeIds: seq<int>, rows: seq<Attachment>, readable: int -> bool, utf8Ok: Bytes -> bool)
    requires PrepareAttachment(activeIds, rows).Ok?
    ensures var url := PrepareAttachment(activeIds, rows).value.url;
      && |url| > |DOWNLOAD_ROUTE| && url[..|DOWNLOAD_ROUTE|] == DOWNLOAD_ROUTE
      && ParseIds(url[|DOWNLOAD_ROUTE|..]) == Ok(BinaryIds(rows, activeIds))
      && Serve(Some(url[|DOWNLOAD_ROUTE|..]), rows, readable, utf8Ok)
         == ZipDownload(ProbedArchive(WrittenFiles(rows, BinaryIds(rows, activeIds), readable, utf8Ok)))
  {
    var attachments := BinaryIds(rows, activeIds);
    var url := PrepareAttachment(activeIds, rows).value.url;
    var query := JoinIds(attachments);
    assert url == DOWNLOAD_ROUTE + query;
    assert url[|DOWNLOAD_ROUTE|..] == query;
    ParseJoinIds(attachments);
    BinaryIdsIdempotent(rows, activeIds);
  }

  /** An `attachment.download` record; `_get_filename` reads and renames its `name`. */
  class DownloadRecord {
    var name: string

    constructor (name: string)
      ensures this.name == name
    {
      this.name := name;
    }

    /**
     * `_get_filename`: `existing` holds the names of the other records the
     * search returns. The name is kept when it is free, and otherwise becomes
     * "base (k)ext" for the least k >= 1 that is free.
     */
    method GetFilename(existing: seq<string>)
      modifies this
      ensures name !in existing
      ensures old(name) !in existing ==> name == old(name)
      ensures name == FreeName(old(name), set x | x in existing)
    {
      var split := SplitExt(name);
      var baseName, extension := split.0, split.1;
      var newName := ProbeName(baseName + extension, existing);
      name := newName;
    }
  }
}
