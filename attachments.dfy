/**
 * The `ir.attachment` records both add-ons work on, and the table that
 * holds them. A record's id is its position in the table plus one.
 */
module Attachments {
  import opened Results
  import opened Archive

  datatype Kind = Binary | Url

  /**
   * One `ir.attachment` row. `None` stands for an unset (NULL) column;
   * `createDate` is the creation day as a day number; `datas` is the payload
   * after base64 decoding, `None` when it cannot be decoded.
   */
  datatype Attachment = Attachment(
    name: string,
    datasFname: Option<string>,
    resModel: Option<string>,
    resId: Option<int>,
    createDate: int,
    fileSize: Option<int>,
    isExported: bool,
    kind: Kind,
    mimetype: string,
    datas: Option<Bytes>)

  /** Errors the add-ons raise or let escape. */
  datatype Failure =
    | UserError(message: string)
    | MissingRecord(id: int)        // reading a field of an id that has no row
    | InvalidLiteral(text: string)  // `int(text)` raised ValueError
    | UndecodablePayload(id: int)   // `base64.b64decode` raised
    | UnnamedAttachment(id: int)    // no name and no datas_fname: `"." in False` raised TypeError

  predicate ValidId(rows: seq<Attachment>, id: int)
  {
    1 <= id <= |rows|
  }

  predicate AllValid(rows: seq<Attachment>, ids: seq<int>)
  {
    forall i :: 0 <= i < |ids| ==> ValidId(rows, ids[i])
  }

  function Get(rows: seq<Attachment>, id: int): Attachment
    requires ValidId(rows, id)
  {
    rows[id - 1]
  }

  /**
   * `ids.write({"is_exported": flag})` applied to the rows: the listed rows
   * get the flag, no other row changes, and no other column changes.
   */
  function SetFlag(rows: seq<Attachment>, ids: seq<int>, flag: bool): (r: seq<Attachment>)
    ensures |r| == |rows|
    ensures forall id :: ValidId(rows, id) && id in ids ==> Get(r, id).isExported == flag
    ensures forall id :: ValidId(rows, id) && id !in ids ==> Get(r, id) == Get(rows, id)
    ensures forall i :: 0 <= i < |rows| ==> r[i].(isExported := rows[i].isExported) == rows[i]
  {
    seq(|rows|, i requires 0 <= i < |rows| =>
      if i + 1 in ids then rows[i].(isExported := flag) else rows[i])
  }

  /** Writing the flag id by id, in order, amounts to one bulk write. */
  lemma SetFlagStep(rows: seq<Attachment>, ids: seq<int>, n: nat, flag: bool)
    requires n < |ids| && ValidId(rows, ids[n])
    ensures var before := SetFlag(rows, ids[..n], flag);
      SetFlag(rows, ids[..n + 1], flag) == before[ids[n] - 1 := before[ids[n] - 1].(isExported := flag)]
  {
  }

  predicate IsBinary(rows: seq<Attachment>, id: int)
  {
    ValidId(rows, id) && Get(rows, id).kind == Binary
  }

  /** The first id that names no row, if any. */
  function FirstMissing(rows: seq<Attachment>, ids: seq<int>): (r: Option<int>)
    ensures r.None? <==> AllValid(rows, ids)
    ensures r.Some? ==> r.value in ids && !ValidId(rows, r.value)
  {
    if ids == [] then None
    else if !ValidId(rows, ids[0]) then Some(ids[0])
    else FirstMissing(rows, ids[1..])
  }

  /** The ids of the binary records among `ids`, in order, repeats kept. */
  function BinaryIds(rows: seq<Attachment>, ids: seq<int>): (r: seq<int>)
    ensures |r| <= |ids|
    ensures forall id :: id in r <==> id in ids && IsBinary(rows, id)
    ensures forall i :: 0 <= i < |r| ==> IsBinary(rows, r[i])
  {
    if ids == [] then []
    else (if IsBinary(rows, ids[0]) then [ids[0]] else []) + BinaryIds(rows, ids[1..])
  }

  /** Filtering keeps order: the binary ids of a concatenation concatenate. */
  lemma {:induction false} BinaryIdsAppend(rows: seq<Attachment>, xs: seq<int>, ys: seq<int>)
    ensures BinaryIds(rows, xs + ys) == BinaryIds(rows, xs) + BinaryIds(rows, ys)
  {
    if xs == [] {
      assert xs + ys == ys;
    } else {
      assert (xs + ys)[1..] == xs[1..] + ys;
      BinaryIdsAppend(rows, xs[1..], ys);
    }
  }

  /** Filtering an already filtered list changes nothing. */
  lemma {:induction false} BinaryIdsIdempotent(rows: seq<Attachment>, ids: seq<int>)
    ensures BinaryIds(rows, BinaryIds(rows, ids)) == BinaryIds(rows, ids)
  {
    if ids != [] {
      var head: seq<int> := if IsBinary(rows, ids[0]) then [ids[0]] else [];
      BinaryIdsIdempotent(rows, ids[1..]);
      BinaryIdsAppend(rows, head, BinaryIds(rows, ids[1..]));
    }
  }

  /**
   * `browse(ids).filtered(lambda x: x.type == "binary")`: reading `type` of an
   * id without a row raises MissingError.
   */
  function BrowseBinary(rows: seq<Attachment>, ids: seq<int>): (r: Result<seq<int>, Failure>)
    ensures r.Err? <==> !AllValid(rows, ids)
    ensures r.Ok? ==> r.value == BinaryIds(rows, ids) && AllValid(rows, r.value)
  {
    match FirstMissing(rows, ids)
    case Some(id) => Err(MissingRecord(id))
    case None => Ok(BinaryIds(rows, ids))
  }

  /** The attachment table; methods stand for the ORM writes the add-ons make. */
  class AttachmentTable {
    var rows: seq<Attachment>

    constructor (rows: seq<Attachment>)
      ensures this.rows == rows
    {
      this.rows := rows;
    }

    /** `attachment.is_exported = flag` on one record. */
    method SetExported(id: int, flag: bool)
      requires ValidId(rows, id)
      modifies this
      ensures rows == old(rows)[id - 1 := old(rows)[id - 1].(isExported := flag)]
    {
      rows := rows[id - 1 := rows[id - 1].(isExported := flag)];
    }

    /** `for attachment in records: attachment.is_exported = flag`, one record at a time. */
    method SetExportedEach(ids: seq<int>, flag: bool)
      requires AllValid(rows, ids)
      modifies this
      ensures rows == SetFlag(old(rows), ids, flag)
    {
      ghost var before := rows;
      var i := 0;
      while i < |ids|
        invariant 0 <= i <= |ids|
        invariant |rows| == |before|
        invariant rows == SetFlag(before, ids[..i], flag)
      {
        SetFlagStep(before, ids, i, flag);
        SetExported(ids[i], flag);
        i := i + 1;
      }
      assert ids[..i] == ids;
    }

    /** `records.write({"is_exported": flag})` on a whole recordset. */
    method WriteExported(ids: seq<int>, flag: bool)
      modifies this
      ensures rows == SetFlag(old(rows), ids, flag)
    {
      rows := SetFlag(rows, ids, flag);
    }

    /** `create(values)`: appends a row and returns its new id. */
    method Create(a: Attachment) returns (id: int)
      modifies this
      ensures rows == old(rows) + [a]
      ensures id == |rows| && Get(rows, id) == a
    {
      rows := rows + [a];
      id := |rows|;
    }
  }
}
