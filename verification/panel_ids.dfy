/** `generatePanelIds`: consecutive decimal panel IDs counted up from a base ID. */
module PanelIds {
  import opened Common
  import opened Decimal

  /** Number of passes of `for (let i = 0; i < count; i++)`. */
  function Passes(count: int): nat {
    if count > 0 then count else 0
  }

  /** The base is parsed with `parseInt`; when that gives `NaN` no ID is produced,
      otherwise ID `i` is the decimal rendering of `base + i`, without padding. */
  function GeneratePanelIds(baseId: string, count: int): (ids: seq<string>)
    ensures ParseInt(baseId).None? ==> ids == []
    ensures ParseInt(baseId).Some? ==> |ids| == Passes(count)
    ensures ParseInt(baseId).Some? ==> forall i :: 0 <= i < |ids| ==>
      if ParseInt(baseId).value + i >= 0 then IsCanonicalNumeral(ids[i])
      else |ids[i]| > 1 && ids[i][0] == '-' && IsCanonicalNumeral(ids[i][1..])
  {
    var parsed := ParseInt(baseId);
    if parsed.None? then []
    else
      var n := parsed.value;
      var ids := seq(Passes(count), i => IntToString(n + i));
      assert forall i :: 0 <= i < |ids| ==> ids[i] == IntToString(n + i);
      ids
  }

  /** Every generated ID parses back to its position counted from the base. */
  lemma GeneratedIdsCountFromBase(baseId: string, count: int, n: int)
    requires ParseInt(baseId) == Some(n)
    ensures var ids := GeneratePanelIds(baseId, count);
      forall i :: 0 <= i < |ids| ==> ParseInt(ids[i]) == Some(n + i)
  {
    var ids := GeneratePanelIds(baseId, count);
    forall i | 0 <= i < |ids|
      ensures ParseInt(ids[i]) == Some(n + i)
    {
      ParseIntRoundTrip(n + i);
    }
  }

  /** The numeric values of the IDs strictly increase, so no ID is repeated (with exact
      addition; see README, "Left out", for the source's doubles past 2^53). */
  lemma GeneratedIdsStrictlyIncrease(baseId: string, count: int)
    requires ParseInt(baseId).Some?
    ensures var ids := GeneratePanelIds(baseId, count);
      forall i, j :: 0 <= i < j < |ids| ==>
        ParseInt(ids[i]).Some? && ParseInt(ids[j]).Some? &&
        ParseInt(ids[i]).value < ParseInt(ids[j]).value
  {
    GeneratedIdsCountFromBase(baseId, count, ParseInt(baseId).value);
  }
}
