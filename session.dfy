/**
 * The per-agency tabs (TIMES, QS, USN, Washington Monthly).  Each tab
 * remembers, in the session state, the universities the user added by
 * hand on that tab, and on every interaction rewrites that memory as "the
 * current picks that are not part of the global selection".
 */
module Session {
  import opened Basics
  import opened Tables
  import opened Colors

  const TIMES_KEY: string := "manual_times_selected_unis"
  const QS_KEY: string := "manual_qs_selected_unis"
  const USN_KEY: string := "manual_usn_selected_unis"
  const WASHINGTON_KEY: string := "manual_washington_selected_unis"

  /** The session keys under which the four tabs remember their picks. */
  const TAB_KEYS: set<string> := {TIMES_KEY, QS_KEY, USN_KEY, WASHINGTON_KEY}

  /** The options of a tab's widget keep the global selection first, in its order. */
  lemma {:induction false} TabOptionsStartWithSelection(allSelected: seq<string>, extras: seq<string>)
    requires NoDup(allSelected)
    ensures |allSelected| <= |Dedup(allSelected + extras)|
    ensures Dedup(allSelected + extras)[..|allSelected|] == allSelected
    ensures Elems(Dedup(allSelected + extras)) == Elems(allSelected) + Elems(extras)
  {
    DedupPrefix(allSelected, extras);
    DedupOfNoDup(allSelected);
    assert Elems(allSelected + extras) == Elems(allSelected) + Elems(extras);
  }

  /**
   * What a tab stores: the picks outside the global selection, in pick
   * order, without repeats.
   */
  lemma {:induction false} StoredPicks(current: seq<string>, allSelected: seq<string>)
    requires NoDup(current)
    ensures NoDup(Without(current, allSelected))
    ensures forall u :: u in Without(current, allSelected) <==> u in current && u !in allSelected
    ensures forall a, b :: a + b == current ==>
      Without(current, allSelected) == Without(a, allSelected) + Without(b, allSelected)
  {
    FilterNoDup(current, x => x !in allSelected);
    FilterMembers(current, x => x !in allSelected);
    forall a, b | a + b == current
      ensures Without(current, allSelected) == Without(a, allSelected) + Without(b, allSelected)
    {
      FilterAppend(a, b, x => x !in allSelected);
    }
  }

  /**
   * `st.session_state`, as far as the tabs use it: only the four tab keys
   * are ever written, each holding a list without repeats.
   */
  class SessionState {
    var manualPicks: map<string, seq<string>>

    ghost predicate Valid()
      reads this
    {
      && manualPicks.Keys <= TAB_KEYS
      && forall tab :: tab in manualPicks ==> NoDup(manualPicks[tab])
    }

    constructor ()
      ensures Valid()
      ensures manualPicks == map[]
    {
      manualPicks := map[];
    }

    /** `st.session_state.get(tab, [])` */
    function Remembered(tab: string): (r: seq<string>)
      reads this
      requires Valid()
      ensures NoDup(r)
      ensures tab !in manualPicks ==> r == []
    {
      if tab in manualPicks then manualPicks[tab] else []
    }

    /**
     * One interaction with the tab stored under `tab`.  `current` is what
     * the tab's widget returned: options only, without repeats.
     */
    method TabStep(tab: string, allSelected: seq<string>, extras: seq<string>, current: seq<string>,
                   selectedYears: seq<int>, t: Table, h: string -> int)
      returns (options: seq<string>, defaults: set<string>, finalList: seq<string>,
               colorMap: map<string, string>, latestYear: Option<int>)
      requires Valid()
      requires tab in TAB_KEYS
      requires NoDup(current)
      requires forall u :: u in current ==> u in allSelected || u in extras
      modifies this
      ensures Valid()
      ensures options == Dedup(allSelected + extras)
      ensures defaults == Elems(allSelected) + Elems(old(Remembered(tab)))
      ensures manualPicks == old(manualPicks)[tab := Without(current, allSelected)]
      ensures forall other :: other != tab ==> Remembered(other) == old(Remembered(other))
      ensures finalList == [NJIT_NAME] + current
      ensures colorMap.Keys == Elems(finalList)
      ensures forall u :: u in colorMap ==> colorMap[u] == ColorOf(h, u)
      ensures latestYear == LatestYearTab(selectedYears, t, finalList)
    {
      options := Dedup(allSelected + extras);
      var stored := Remembered(tab);
      defaults := Elems(allSelected + stored);
      assert Elems(allSelected + stored) == Elems(allSelected) + Elems(stored);
      StoredPicks(current, allSelected);
      manualPicks := manualPicks[tab := Without(current, allSelected)];
      finalList := [NJIT_NAME] + current;
      colorMap := CreateColorMap(finalList, h);
      latestYear := LatestYearTab(selectedYears, t, finalList);
    }
  }
}
