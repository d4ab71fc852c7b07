/**
  Timezone selection and listing (`ConvertTimezone.pick_a_timezone` and
  `ConvertTimezone.list_timezones`). The host's timezone catalog
  (`pytz.all_timezones`) is the parameter `catalog`, in its enumeration order.
*/
module Zones {
  import opened Wrappers

  /** The zone every unresolved filter falls back to. */
  const DefaultZone: string := "UTC"
  /** The filter `list_timezones` uses when none is given. */
  const DefaultListFilter: string := "US"

  /** `filter in zone`: `filter` occurs in `zone` (case-sensitive, not a pattern). */
  function Contains(zone: string, filter: string): bool
    decreases |zone|
  {
    (|filter| <= |zone| && zone[..|filter|] == filter) || (|zone| > 0 && Contains(zone[1..], filter))
  }

  predicate OccursAt(zone: string, filter: string, i: int) {
    0 <= i && i + |filter| <= |zone| && zone[i..i + |filter|] == filter
  }

  /** `Contains` is exactly substring occurrence at some offset. */
  lemma {:induction false} ContainsIff(zone: string, filter: string)
    ensures Contains(zone, filter) <==> exists i :: OccursAt(zone, filter, i)
    decreases |zone|
  {
    if |filter| <= |zone| && zone[..|filter|] == filter {
      assert OccursAt(zone, filter, 0);
    } else if |zone| > 0 {
      ContainsIff(zone[1..], filter);
      if Contains(zone[1..], filter) {
        var i :| OccursAt(zone[1..], filter, i);
        assert zone[1..][i..i + |filter|] == zone[i + 1..i + 1 + |filter|];
        assert OccursAt(zone, filter, i + 1);
      } else if exists i :: OccursAt(zone, filter, i) {
        var i :| OccursAt(zone, filter, i);
        assert i != 0;
        assert zone[1..][i - 1..i - 1 + |filter|] == zone[i..i + |filter|];
        assert OccursAt(zone[1..], filter, i - 1);
        assert false;
      }
    }
  }

  /** The empty filter occurs in every zone name. */
  lemma {:induction false} ContainsEmpty(zone: string)
    ensures Contains(zone, "")
  {
    assert zone[..0] == "";
  }

  /** The catalog entries that contain `filter`, in catalog order. */
  function Matching(catalog: seq<string>, filter: string): (r: seq<string>)
    ensures |r| <= |catalog|
  {
    if catalog == [] then []
    else (if Contains(catalog[0], filter) then [catalog[0]] else []) + Matching(catalog[1..], filter)
  }

  /** Filtering distributes over concatenation, so it keeps catalog order. */
  lemma {:induction false} MatchingAppend(a: seq<string>, b: seq<string>, filter: string)
    ensures Matching(a + b, filter) == Matching(a, filter) + Matching(b, filter)
    decreases |a|
  {
    if a != [] {
      assert (a + b)[0] == a[0];
      assert (a + b)[1..] == a[1..] + b;
      MatchingAppend(a[1..], b, filter);
    } else {
      assert a + b == b;
    }
  }

  /** Exactly the catalog entries containing the filter are listed. */
  lemma {:induction false} MatchingMembers(catalog: seq<string>, filter: string, zone: string)
    ensures zone in Matching(catalog, filter) <==> zone in catalog && Contains(zone, filter)
    decreases |catalog|
  {
    if catalog != [] {
      MatchingMembers(catalog[1..], filter, zone);
      assert catalog == [catalog[0]] + catalog[1..];
    }
  }

  /** Nothing is listed exactly when no catalog entry contains the filter. */
  lemma {:induction false} MatchingEmptyIff(catalog: seq<string>, filter: string)
    ensures Matching(catalog, filter) == [] <==> forall i :: 0 <= i < |catalog| ==> !Contains(catalog[i], filter)
    decreases |catalog|
  {
    if catalog != [] {
      MatchingEmptyIff(catalog[1..], filter);
      assert forall i :: 1 <= i < |catalog| ==> catalog[i] == catalog[1..][i - 1];
    }
  }

  /** With the empty filter every entry is listed. */
  lemma {:induction false} MatchingEverything(catalog: seq<string>)
    ensures Matching(catalog, "") == catalog
    decreases |catalog|
  {
    if catalog != [] {
      ContainsEmpty(catalog[0]);
      MatchingEverything(catalog[1..]);
    }
  }

  /** The filter `list_timezones` applies: `"US"` when none is given. */
  function ListFilter(filterTz: Option<string>): string {
    if filterTz.None? then DefaultListFilter else filterTz.value
  }

  /** `if filter_tz:` in Python: a filter that is present and not empty. */
  predicate IsActive(filterTz: Option<string>) {
    filterTz.Some? && filterTz.value != ""
  }

  /** The zone `pick_a_timezone` picks: the first catalog entry containing an active filter, else `"UTC"`. */
  function PickZone(catalog: seq<string>, filterTz: Option<string>): string {
    if IsActive(filterTz) && Matching(catalog, filterTz.value) != [] then Matching(catalog, filterTz.value)[0]
    else DefaultZone
  }

  /** An absent or empty filter picks `"UTC"` whatever the catalog holds. */
  lemma {:induction false} PickWithoutFilter(catalog: seq<string>, filterTz: Option<string>)
    requires !IsActive(filterTz)
    ensures PickZone(catalog, filterTz) == DefaultZone
  {
  }

  /** With an active filter, the pick is the entry at the smallest index containing it. */
  lemma {:induction false} PickFirstMatch(catalog: seq<string>, filter: string, k: int)
    requires filter != ""
    requires 0 <= k < |catalog| && Contains(catalog[k], filter)
    requires forall j :: 0 <= j < k ==> !Contains(catalog[j], filter)
    ensures PickZone(catalog, Some(filter)) == catalog[k]
  {
    assert catalog == catalog[..k] + catalog[k..];
    MatchingAppend(catalog[..k], catalog[k..], filter);
    MatchingEmptyIff(catalog[..k], filter);
    assert catalog[k..][0] == catalog[k];
  }

  /** With an active filter that no entry contains, the pick falls back to `"UTC"`. */
  lemma {:induction false} PickNoMatch(catalog: seq<string>, filter: string)
    requires forall j :: 0 <= j < |catalog| ==> !Contains(catalog[j], filter)
    ensures PickZone(catalog, Some(filter)) == DefaultZone
  {
    MatchingEmptyIff(catalog, filter);
  }

  /** The pick is always `"UTC"` or a catalog entry containing the filter. */
  lemma {:induction false} PickIsUtcOrMember(catalog: seq<string>, filterTz: Option<string>)
    ensures var z := PickZone(catalog, filterTz);
      z == DefaultZone || (filterTz.Some? && z in catalog && Contains(z, filterTz.value))
  {
    if IsActive(filterTz) && Matching(catalog, filterTz.value) != [] {
      MatchingMembers(catalog, filterTz.value, Matching(catalog, filterTz.value)[0]);
    }
  }

  /** The loop of `pick_a_timezone`: scan the catalog and stop at the first hit. */
  method PickTimezone(catalog: seq<string>, filterTz: Option<string>) returns (pickedTzone: string)
    ensures pickedTzone == PickZone(catalog, filterTz)
  {
    pickedTzone := DefaultZone;
    if IsActive(filterTz) {
      var filter := filterTz.value;
      var i := 0;
      while i < |catalog|
        invariant 0 <= i <= |catalog|
        invariant Matching(catalog[..i], filter) == []
        invariant pickedTzone == DefaultZone
      {
        assert catalog[..i + 1] == catalog[..i] + [catalog[i]];
        MatchingAppend(catalog[..i], [catalog[i]], filter);
        if Contains(catalog[i], filter) {
          pickedTzone := catalog[i];
          assert catalog == catalog[..i + 1] + catalog[i + 1..];
          MatchingAppend(catalog[..i + 1], catalog[i + 1..], filter);
          break;
        }
        i := i + 1;
      }
      if i == |catalog| {
        assert catalog[..i] == catalog;
      }
    }
  }

  /** The loop of `list_timezones`: emit every catalog entry that contains the filter, in order. */
  method ListTimezones(catalog: seq<string>, filterTz: Option<string>) returns (zones: seq<string>)
    ensures zones == Matching(catalog, ListFilter(filterTz))
  {
    var filter := DefaultListFilter;
    if filterTz.Some? {
      filter := filterTz.value;
    }
    zones := [];
    for i := 0 to |catalog|
      invariant zones == Matching(catalog[..i], filter)
    {
      assert catalog[..i + 1] == catalog[..i] + [catalog[i]];
      MatchingAppend(catalog[..i], [catalog[i]], filter);
      if Contains(catalog[i], filter) {
        zones := zones + [catalog[i]];
      }
    }
    assert catalog[..|catalog|] == catalog;
  }
}
