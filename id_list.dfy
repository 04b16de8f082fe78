/**
 * The `ids=` query argument: the download helper writes the selected ids as
 * `",".join(map(str, ids))` and the controller reads them back with
 * `map(int, ids.split(","))`.
 */
module IdList {
  import opened Results
  import opened Text
  import opened Decimal
  import opened Attachments

  /** The separator of an id list in a URL. */
  const Comma: char := ','

  function IdStrings(ids: seq<int>): (r: seq<string>)
    ensures |r| == |ids|
    ensures forall i :: 0 <= i < |ids| ==> r[i] == IntToString(ids[i])
  {
    seq(|ids|, i requires 0 <= i < |ids| => IntToString(ids[i]))
  }

  /** `",".join(map(str, ids))`; the empty list joins to the empty string. */
  function JoinIds(ids: seq<int>): (r: string)
    ensures ids != [] ==> r != ""
  {
    if ids == [] then "" else Join(IdStrings(ids), Comma)
  }

  /** Every piece is an integer literal. */
  predicate AllNumbers(pieces: seq<string>)
  {
    forall i :: 0 <= i < |pieces| ==> ParseInt(pieces[i]).Some?
  }

  /** `int(piece)` for each piece in turn; the first piece that is not a number raises. */
  function ParsePieces(pieces: seq<string>): (r: Result<seq<int>, Failure>)
    ensures r.Ok? ==> |r.value| == |pieces|
    ensures r.Ok? <==> AllNumbers(pieces)
    ensures r.Ok? ==> forall i :: 0 <= i < |pieces| ==> ParseInt(pieces[i]) == Some(r.value[i])
    ensures r.Err? ==> exists i :: 0 <= i < |pieces| && ParseInt(pieces[i]).None? && r.error == InvalidLiteral(pieces[i])
  {
    if pieces == [] then Ok([])
    else match ParseInt(pieces[0])
      case None => Err(InvalidLiteral(pieces[0]))
      case Some(v) =>
        var rest := ParsePieces(pieces[1..]);
        if rest.Err? then
          assert forall i :: 0 <= i < |pieces| - 1 ==> pieces[1..][i] == pieces[i + 1];
          rest
        else Ok([v] + rest.value)
  }

  /**
   * `map(int, text.split(","))`: one id per comma-separated piece, in order;
   * the empty text is one empty piece, which is not a number.
   */
  function ParseIds(text: string): (r: Result<seq<int>, Failure>)
    ensures text == "" ==> r == Err(InvalidLiteral(""))
    ensures r.Ok? ==> |r.value| == |Split(text, Comma)| >= 1
    ensures r.Ok? <==> AllNumbers(Split(text, Comma))
    ensures r.Ok? ==> forall i :: 0 <= i < |r.value| ==> ParseInt(Split(text, Comma)[i]) == Some(r.value[i])
  {
    ParsePieces(Split(text, Comma))
  }

  /** Parsing the joined ids gives back the ids, in order. */
  lemma ParseJoinIds(ids: seq<int>)
    requires ids != []
    ensures ParseIds(JoinIds(ids)) == Ok(ids)
  {
    var pieces := IdStrings(ids);
    forall i | 0 <= i < |pieces|
      ensures Comma !in pieces[i] && ParseInt(pieces[i]) == Some(ids[i])
    {
      ParseIntToString(ids[i]);
    }
    SplitJoin(pieces, Comma);
    assert ParseIds(JoinIds(ids)) == ParsePieces(pieces);
    var r := ParsePieces(pieces);
    assert r.Ok?;
    forall i | 0 <= i < |ids|
      ensures r.value[i] == ids[i]
    {
      assert ParseInt(pieces[i]) == Some(r.value[i]);
    }
    assert r.value == ids;
  }
}
