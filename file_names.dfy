/**
 * File-name handling shared by the export archive, the download controller
 * and the download helper: splitting a name at its last '.', building the
 * "base (k)ext" variant, and the probe loop that looks for the first variant
 * not already taken.
 */
module FileNames {
  import opened Decimal

  /** Index of the last '.' in `s`. */
  function LastDot(s: string): (r: nat)
    requires '.' in s
    ensures r < |s| && s[r] == '.'
    ensures '.' !in s[r + 1..]
  {
    if s[|s| - 1] == '.' then |s| - 1
    else
      assert '.' in s[..|s| - 1] by {
        var k :| 0 <= k < |s| && s[k] == '.';
        assert s[..|s| - 1][k] == '.';
      }
      var r := LastDot(s[..|s| - 1]);
      assert s[r + 1..] == s[..|s| - 1][r + 1..] + [s[|s| - 1]];
      r
  }

  /**
   * `name.rsplit(".", 1)` followed by re-attaching the dot to the extension:
   * the result is (base, ext) where ext is "." plus the text after the last
   * dot, or empty when the name holds no dot.
   */
  function SplitExt(name: string): (r: (string, string))
    ensures r.0 + r.1 == name
    ensures '.' !in name ==> r.1 == ""
    ensures '.' in name ==> |r.1| >= 1 && r.1[0] == '.' && '.' !in r.1[1..]
  {
    if '.' !in name then (name, "")
    else
      var i := LastDot(name);
      assert name[..i] + name[i..] == name;
      (name[..i], name[i..])
  }

  /** `"{} ({}){}".format(base, k, ext)`. */
  function Suffixed(base: string, k: nat, ext: string): string
  {
    base + " (" + NatToString(k) + ")" + ext
  }

  /** Different counters give different names. */
  lemma SuffixedInjective(base: string, ext: string, j: nat, k: nat)
    requires Suffixed(base, j, ext) == Suffixed(base, k, ext)
    ensures j == k
  {
    var a, b := NatToString(j), NatToString(k);
    var s, t := Suffixed(base, j, ext), Suffixed(base, k, ext);
    var p := |base| + 2;
    assert |a| == |b|;
    assert s[p..p + |a|] == a;
    assert t[p..p + |b|] == b;
    NatToStringInjective(j, k);
  }

  /** The counters 1 .. k-1 all name taken entries. */
  ghost predicate AllTakenBelow(base: string, ext: string, existing: set<string>, k: nat)
  {
    forall j :: 1 <= j < k ==> Suffixed(base, j, ext) in existing
  }

  /** Distinct counters name distinct entries, so at most |existing| of them are taken. */
  lemma {:induction false} TakenBound(base: string, ext: string, existing: set<string>, k: nat)
    requires AllTakenBelow(base, ext, existing, k)
    ensures k <= |existing| + 1
  {
    if k > 1 {
      var x := Suffixed(base, k - 1, ext);
      var rest := existing - {x};
      forall j | 1 <= j < k - 1
        ensures Suffixed(base, j, ext) in rest
      {
        if Suffixed(base, j, ext) == x {
          SuffixedInjective(base, ext, j, k - 1);
        }
      }
      TakenBound(base, ext, rest, k - 1);
    }
  }

  /** `k` is the least counter >= 1 whose variant is free. */
  ghost predicate LeastFree(base: string, ext: string, existing: set<string>, k: nat)
  {
    k >= 1 && Suffixed(base, k, ext) !in existing && AllTakenBelow(base, ext, existing, k)
  }

  lemma LeastFreeUnique(base: string, ext: string, existing: set<string>, j: nat, k: nat)
    requires LeastFree(base, ext, existing, j) && LeastFree(base, ext, existing, k)
    ensures j == k
  {
  }

  /** The least counter >= k whose variant is free, given that 1 .. k-1 are taken. */
  function FirstFreeIndex(base: string, ext: string, existing: set<string>, k: nat): (r: nat)
    requires k >= 1
    requires AllTakenBelow(base, ext, existing, k)
    ensures r >= k
    ensures LeastFree(base, ext, existing, r)
    decreases |existing| + 1 - k
  {
    TakenBound(base, ext, existing, k);
    if Suffixed(base, k, ext) !in existing then k
    else FirstFreeIndex(base, ext, existing, k + 1)
  }

  /**
   * The name the probe loop settles on: `name` itself when it is free,
   * otherwise "base (k)ext" for the least k >= 1 that is free.
   */
  function FreeName(name: string, existing: set<string>): (r: string)
    ensures r !in existing
    ensures name !in existing ==> r == name
    ensures name in existing ==>
      exists k :: LeastFree(SplitExt(name).0, SplitExt(name).1, existing, k)
               && r == Suffixed(SplitExt(name).0, k, SplitExt(name).1)
  {
    if name !in existing then name
    else
      var base, ext := SplitExt(name).0, SplitExt(name).1;
      Suffixed(base, FirstFreeIndex(base, ext, existing, 1), ext)
  }

  /**
   * The probe loop of the download controller and of `_get_filename`:
   * try `name`, then "base (1)ext", "base (2)ext", ... until the candidate
   * is not among `existing`.
   */
  method ProbeName(name: string, existing: seq<string>) returns (newName: string)
    ensures newName !in existing
    ensures name !in existing ==> newName == name
    ensures newName == FreeName(name, set x | x in existing)
  {
    var base, ext := SplitExt(name).0, SplitExt(name).1;
    ghost var taken := set x | x in existing;
    var counter: nat := 1;
    newName := name;
    while newName in existing
      invariant counter >= 1
      invariant counter == 1 ==> newName == name
      invariant counter > 1 ==> name in existing && newName == Suffixed(base, counter - 1, ext)
      invariant AllTakenBelow(base, ext, taken, counter - 1)
      decreases |taken| + 1 - counter
    {
      assert AllTakenBelow(base, ext, taken, counter);
      TakenBound(base, ext, taken, counter);
      newName := Suffixed(base, counter, ext);
      counter := counter + 1;
    }
    if counter > 1 {
      assert LeastFree(base, ext, taken, counter - 1);
      var k := FirstFreeIndex(base, ext, taken, 1);
      LeastFreeUnique(base, ext, taken, k, counter - 1);
    }
  }
}
