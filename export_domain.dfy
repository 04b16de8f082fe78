/**
 * Which attachments an export selects: the search domain built by
 * `_get_domain` and `_get_excluded_files_domains`, what each clause means
 * for one row, and the ORM search that returns the matching ids.
 */
module ExportDomain {
  import opened Text
  import opened Attachments

  /** One `(field, operator, value)` triple of the domains the export builds. */
  datatype Clause =
    | ResModelIn(models: seq<string>)   // ("res_model", "in", models)
    | IsExportedIs(flag: bool)          // ("is_exported", "=", flag)
    | CreatedOnOrAfter(day: int)        // ("create_date", ">=", day)
    | CreatedOnOrBefore(day: int)       // ("create_date", "<=", day)
    | FileSizeAbove(bound: int)         // ("file_size", ">", bound)
    | ResIdSet                          // ("res_id", "!=", False)
    | ResModelSet                       // ("res_model", "!=", False)
    | NameNotILike(pattern: string)     // ("name", "not ilike", pattern)

  /**
   * Whether a row satisfies one clause. An unset column fails every
   * comparison, as NULL does in SQL. A date bound compares whole days, so both
   * bounds admit the whole bounding day.
   */
  predicate Holds(a: Attachment, c: Clause)
  {
    match c
    case ResModelIn(models) => a.resModel.Some? && a.resModel.value in models
    case IsExportedIs(flag) => a.isExported == flag
    case CreatedOnOrAfter(day) => a.createDate >= day
    case CreatedOnOrBefore(day) => a.createDate <= day
    case FileSizeAbove(bound) => a.fileSize.Some? && a.fileSize.value > bound
    case ResIdSet => a.resId.Some?
    case ResModelSet => a.resModel.Some?
    case NameNotILike(pattern) => !ContainsIgnoreCase(a.name, pattern)
  }

  /** A domain is the conjunction of its clauses. */
  predicate Matches(a: Attachment, domain: seq<Clause>)
  {
    forall i :: 0 <= i < |domain| ==> Holds(a, domain[i])
  }

  /** The name holds one of the excluded extensions, in any case, anywhere. */
  predicate ExcludedName(name: string)
  {
    ContainsIgnoreCase(name, ".js") || ContainsIgnoreCase(name, ".css")
    || ContainsIgnoreCase(name, ".json") || ContainsIgnoreCase(name, ".zip")
  }

  /** `_get_excluded_files_domains`: a row passes it exactly when its name is not excluded. */
  function ExcludedFilesDomain(): (r: seq<Clause>)
    ensures forall a :: Matches(a, r) <==> !ExcludedName(a.name)
  {
    var d := [NameNotILike(".js"), NameNotILike(".css"), NameNotILike(".json"), NameNotILike(".zip")];
    assert forall a :: Matches(a, d) <==> Holds(a, d[0]) && Holds(a, d[1]) && Holds(a, d[2]) && Holds(a, d[3]);
    d
  }

  /** `_get_domain` of an export with these models and dates. */
  function GetDomain(models: seq<string>, startDate: int, endDate: int): seq<Clause>
  {
    (if models != [] then [ResModelIn(models)] else [])
    + [IsExportedIs(false), CreatedOnOrAfter(startDate), CreatedOnOrBefore(endDate),
       FileSizeAbove(0), ResIdSet, ResModelSet]
    + ExcludedFilesDomain()
  }

  /** The selection criteria of an export, stated directly. */
  predicate Selectable(a: Attachment, models: seq<string>, startDate: int, endDate: int)
  {
    && !a.isExported
    && startDate <= a.createDate <= endDate
    && a.fileSize.Some? && a.fileSize.value > 0
    && a.resId.Some? && a.resModel.Some?
    && (models != [] ==> a.resModel.value in models)
    && !ExcludedName(a.name)
  }

  lemma MatchesAppend(a: Attachment, d1: seq<Clause>, d2: seq<Clause>)
    ensures Matches(a, d1 + d2) <==> Matches(a, d1) && Matches(a, d2)
  {
    if Matches(a, d1) && Matches(a, d2) {
      forall i | 0 <= i < |d1 + d2|
        ensures Holds(a, (d1 + d2)[i])
      {
        if i >= |d1| { assert (d1 + d2)[i] == d2[i - |d1|]; }
      }
    }
    if Matches(a, d1 + d2) {
      forall i | 0 <= i < |d1|
        ensures Holds(a, d1[i])
      {
        assert (d1 + d2)[i] == d1[i];
      }
      forall i | 0 <= i < |d2|
        ensures Holds(a, d2[i])
      {
        assert (d1 + d2)[|d1| + i] == d2[i];
      }
    }
  }

  /** A row matches the export's domain exactly when it meets the selection criteria. */
  lemma {:induction false} DomainCharacterisation(a: Attachment, models: seq<string>, startDate: int, endDate: int)
    ensures Matches(a, GetDomain(models, startDate, endDate)) <==> Selectable(a, models, startDate, endDate)
  {
    var head: seq<Clause> := if models != [] then [ResModelIn(models)] else [];
    var middle := [IsExportedIs(false), CreatedOnOrAfter(startDate), CreatedOnOrBefore(endDate),
                   FileSizeAbove(0), ResIdSet, ResModelSet];
    var excluded := ExcludedFilesDomain();
    MatchesAppend(a, head + middle, excluded);
    MatchesAppend(a, head, middle);
    assert Matches(a, middle) <==>
      Holds(a, middle[0]) && Holds(a, middle[1]) && Holds(a, middle[2])
      && Holds(a, middle[3]) && Holds(a, middle[4]) && Holds(a, middle[5]);
    if models != [] {
      assert Matches(a, head) <==> Holds(a, head[0]);
    }
  }

  /**
   * `search(domain)` on the table: the ids of the matching rows, in the
   * model's default order (descending id).
   */
  function Search(rows: seq<Attachment>, domain: seq<Clause>): (r: seq<int>)
    ensures forall id :: id in r <==> ValidId(rows, id) && Matches(Get(rows, id), domain)
    ensures forall i, j :: 0 <= i < j < |r| ==> r[i] > r[j]
    ensures AllValid(rows, r)
  {
    if rows == [] then []
    else
      var init := rows[..|rows| - 1];
      var rest := Search(init, domain);
      assert forall id :: ValidId(init, id) ==> Get(init, id) == Get(rows, id);
      if Matches(rows[|rows| - 1], domain) then [|rows|] + rest else rest
  }

  /** The attachment `pack_zip` creates is named "....zip", so no export ever selects it. */
  lemma {:induction false} ArchiveNeverSelected(a: Attachment, exportName: string, models: seq<string>, startDate: int, endDate: int)
    requires a.name == exportName + ".zip"
    ensures !Matches(a, GetDomain(models, startDate, endDate))
  {
    SuffixContained(exportName, ".zip");
    DomainCharacterisation(a, models, startDate, endDate);
  }

  /** Once the selected rows are flagged, the same domain selects nothing. */
  lemma {:induction false} CheckedRowsNoLongerMatch(rows: seq<Attachment>, models: seq<string>, startDate: int, endDate: int)
    ensures var domain := GetDomain(models, startDate, endDate);
      Search(SetFlag(rows, Search(rows, domain), true), domain) == []
  {
    var domain := GetDomain(models, startDate, endDate);
    var found := Search(rows, domain);
    var after := SetFlag(rows, found, true);
    var again := Search(after, domain);
    if again != [] {
      var id := again[0];
      assert ValidId(after, id) && Matches(Get(after, id), domain);
      DomainCharacterisation(Get(after, id), models, startDate, endDate);
      DomainCharacterisation(Get(rows, id), models, startDate, endDate);
      assert false;
    }
  }

  /** Clearing the flag on the selected rows restores the table the search ran on. */
  lemma {:induction false} UnflagRestores(rows: seq<Attachment>, models: seq<string>, startDate: int, endDate: int)
    ensures var found := Search(rows, GetDomain(models, startDate, endDate));
      SetFlag(SetFlag(rows, found, true), found, false) == rows
  {
    var found := Search(rows, GetDomain(models, startDate, endDate));
    var back := SetFlag(SetFlag(rows, found, true), found, false);
    forall i | 0 <= i < |rows|
      ensures back[i] == rows[i]
    {
      if i + 1 in found {
        DomainCharacterisation(Get(rows, i + 1), models, startDate, endDate);
      }
    }
  }
}
