/**
 * The export's total size: `_compute_total_attachment_size` sums the file
 * sizes of the selected attachments, and `_format_size` chooses the unit.
 */
module ExportSize {
  import opened Results
  import opened Decimal
  import opened Attachments

  const KIB: int := 1024
  const MIB: int := 1024 * 1024
  const GIB: int := 1024 * 1024 * 1024

  datatype Unit = KB | MB | GB

  function UnitBytes(u: Unit): int
  {
    match u
    case KB => KIB
    case MB => MIB
    case GB => GIB
  }

  /**
   * The text `_format_size` returns: a quantity in a unit (printed with two
   * decimals in the source; the exact ratio here) or the exact byte count.
   */
  datatype SizeText = Scaled(amount: real, unit: Unit) | Bytes(text: string)

  /** `attachment.file_size or 0`. */
  function SizeOrZero(a: Attachment): int
  {
    if a.fileSize.Some? then a.fileSize.value else 0
  }

  /**
   * The sum over the given records of their sizes, a missing size counting
   * as 0: one record totals its own size, and with SizeSumAppend the total
   * of a concatenation is the sum of the totals. With no negative size, the
   * total is not negative.
   */
  function SizeSum(rows: seq<Attachment>, ids: seq<int>): (r: int)
    requires AllValid(rows, ids)
    ensures ids == [] ==> r == 0
    ensures |ids| == 1 ==> r == SizeOrZero(Get(rows, ids[0]))
    ensures (forall i :: 0 <= i < |ids| ==> SizeOrZero(Get(rows, ids[i])) >= 0) ==> r >= 0
  {
    if ids == [] then 0
    else
      assert forall i :: 0 <= i < |ids| - 1 ==> ids[1..][i] == ids[i + 1];
      SizeOrZero(Get(rows, ids[0])) + SizeSum(rows, ids[1..])
  }

  /** The total over two lists is the sum of their totals. */
  lemma {:induction false} SizeSumAppend(rows: seq<Attachment>, xs: seq<int>, ys: seq<int>)
    requires AllValid(rows, xs) && AllValid(rows, ys)
    ensures AllValid(rows, xs + ys)
    ensures SizeSum(rows, xs + ys) == SizeSum(rows, xs) + SizeSum(rows, ys)
  {
    assert AllValid(rows, xs + ys);
    if xs != [] {
      assert (xs + ys)[1..] == xs[1..] + ys;
      SizeSumAppend(rows, xs[1..], ys);
    } else {
      assert xs + ys == ys;
    }
  }

  /** With no negative sizes, the total is at least the size of every record. */
  lemma {:induction false} SizeSumBounds(rows: seq<Attachment>, ids: seq<int>, k: nat)
    requires AllValid(rows, ids)
    requires forall i :: 0 <= i < |ids| ==> SizeOrZero(Get(rows, ids[i])) >= 0
    requires k < |ids|
    ensures SizeSum(rows, ids) >= SizeOrZero(Get(rows, ids[k])) >= 0
  {
    assert forall i :: 0 <= i < |ids| - 1 ==> ids[1..][i] == ids[i + 1];
    if k > 0 {
      SizeSumBounds(rows, ids[1..], k - 1);
    }
  }

  /** When every record is at least one byte long, the total is at least the number of records. */
  lemma {:induction false} SizeSumAtLeastCount(rows: seq<Attachment>, ids: seq<int>)
    requires AllValid(rows, ids)
    requires forall i :: 0 <= i < |ids| ==> SizeOrZero(Get(rows, ids[i])) >= 1
    ensures SizeSum(rows, ids) >= |ids|
  {
    if ids != [] {
      assert forall i :: 0 <= i < |ids| - 1 ==> ids[1..][i] == ids[i + 1];
      SizeSumAtLeastCount(rows, ids[1..]);
    }
  }

  /**
   * `_format_size`: GB from 1024^3 bytes on, MB from 1024^2, KB from 1024,
   * and below that the exact count followed by " bytes".
   */
  function FormatSize(size: int): (r: SizeText)
    ensures r.Bytes? <==> size < KIB
    ensures r.Scaled? ==> r.amount * UnitBytes(r.unit) as real == size as real
    ensures r.Scaled? ==> 1.0 <= r.amount && (r.unit != GB ==> r.amount < 1024.0)
    ensures r.Bytes? ==>
              && |r.text| > 6 && r.text[|r.text| - 6..] == " bytes"
              && ParseInt(r.text[..|r.text| - 6]) == Some(size)
    ensures r.Bytes? ==> r.text == IntToString(size) + " bytes"
  {
    if size >= GIB then Scaled(size as real / GIB as real, GB)
    else if size >= MIB then Scaled(size as real / MIB as real, MB)
    else if size >= KIB then Scaled(size as real / KIB as real, KB)
    else
      var digits := IntToString(size);
      ParseIntToString(size);
      assert (digits + " bytes")[..|digits|] == digits;
      Bytes(digits + " bytes")
  }
}
