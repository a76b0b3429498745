/**
 * The repair of two state names that the statistics exports truncate, shared
 * by the file processing of every dataset: a name ending in "ttemberg" becomes
 * "Baden-Württemberg" and a name ending in "ingen" becomes "Thüringen".
 */
module Regions {
  import opened Tables

  const RegionColumn := "Länder"
  const BadenWuerttemberg := "Baden-Württemberg"
  const Thueringen := "Thüringen"
  const BadenFragment := "ttemberg"
  const ThueringenFragment := "ingen"

  /** What the repair does to one state name. */
  function NormaliseRegion(s: string): string {
    if EndsWith(s, BadenFragment) then BadenWuerttemberg
    else if EndsWith(s, ThueringenFragment) then Thueringen
    else s
  }

  /** No name ends in both fragments: they end in different letters. */
  lemma FragmentsExclusive(s: string)
    ensures !(EndsWith(s, BadenFragment) && EndsWith(s, ThueringenFragment))
  {
    if EndsWith(s, BadenFragment) {
      assert s[|s| - 8..][7] == s[|s| - 1] == 'g';
      assert s[|s| - 5..][4] == s[|s| - 1];
    }
  }

  /** Repairing a name twice is repairing it once: both full names end in their own fragment. */
  lemma NormaliseRegionIdempotent(s: string)
    ensures NormaliseRegion(NormaliseRegion(s)) == NormaliseRegion(s)
    ensures NormaliseRegion(s) == BadenWuerttemberg <==> EndsWith(s, BadenFragment) || s == BadenWuerttemberg
  {
    assert BadenWuerttemberg[|BadenWuerttemberg| - |BadenFragment|..] == BadenFragment;
    assert Thueringen[|Thueringen| - |ThueringenFragment|..] == ThueringenFragment;
  }

  /** The region column exists and holds text in every row (the `.str` accessor needs strings). */
  predicate RegionsAreText(t: Table)
    requires WellFormed(t)
  {
    RegionColumn in t.columns && forall i :: 0 <= i < |t.rows| ==> At(t, i, RegionColumn).Text?
  }

  /** `frame[RegionColumn].str.endswith(suffix)`. */
  function EndsWithMask(t: Table, suffix: string): (m: seq<bool>)
    requires WellFormed(t) && RegionsAreText(t)
    ensures |m| == |t.rows|
    ensures forall i :: 0 <= i < |m| ==> m[i] == EndsWith(At(t, i, RegionColumn).s, suffix)
  {
    seq(|t.rows|, i requires 0 <= i < |t.rows| => EndsWith(At(t, i, RegionColumn).s, suffix))
  }

  /** `frame.loc[mask, RegionColumn] = name`. */
  function AssignRegion(t: Table, mask: seq<bool>, name: string): (r: Table)
    requires WellFormed(t) && RegionColumn in t.columns && |mask| == |t.rows|
    ensures WellFormed(r) && r.columns == t.columns && |r.rows| == |t.rows|
  {
    SetColumn(t, RegionColumn, seq(|t.rows|, i requires 0 <= i < |t.rows| =>
      if mask[i] then Text(name) else At(t, i, RegionColumn)))
  }

  /**
   * The repair as the source performs it: both masks are computed on the
   * column as read, then the Baden-Württemberg assignment runs, then the
   * Thüringen one. Each name ends up repaired as NormaliseRegion says, and
   * nothing else in the frame changes.
   */
  function NormaliseRegions(t: Table): (r: Table)
    requires WellFormed(t) && RegionsAreText(t)
    ensures WellFormed(r) && r.columns == t.columns && |r.rows| == |t.rows|
    ensures RegionsAreText(r)
    ensures forall i :: 0 <= i < |r.rows| ==> r.rows[i].indexLabel == t.rows[i].indexLabel
    ensures forall i :: 0 <= i < |r.rows| ==> At(r, i, RegionColumn) == Text(NormaliseRegion(At(t, i, RegionColumn).s))
    ensures forall i, c :: 0 <= i < |r.rows| && c in t.columns && c != RegionColumn ==> At(r, i, c) == At(t, i, c)
  {
    var toBaden := EndsWithMask(t, BadenFragment);
    var toThueringen := EndsWithMask(t, ThueringenFragment);
    var r := AssignRegion(AssignRegion(t, toBaden, BadenWuerttemberg), toThueringen, Thueringen);
    assert forall i :: 0 <= i < |r.rows| ==> At(r, i, RegionColumn) == Text(NormaliseRegion(At(t, i, RegionColumn).s)) by {
      forall i | 0 <= i < |r.rows|
        ensures At(r, i, RegionColumn) == Text(NormaliseRegion(At(t, i, RegionColumn).s))
      {
        FragmentsExclusive(At(t, i, RegionColumn).s);
      }
    }
    r
  }

  /** Running the file-processing repair on an already repaired frame changes nothing. */
  lemma NormaliseRegionsIdempotent(t: Table)
    requires WellFormed(t) && RegionsAreText(t)
    ensures NormaliseRegions(NormaliseRegions(t)) == NormaliseRegions(t)
  {
    var once := NormaliseRegions(t);
    var twice := NormaliseRegions(once);
    forall i | 0 <= i < |once.rows| ensures At(twice, i, RegionColumn) == At(once, i, RegionColumn) {
      NormaliseRegionIdempotent(At(t, i, RegionColumn).s);
    }
    TableExtensionality(twice, once);
  }
}
