/**
 * The sidebar's selection engine: peer groups, the pool of universities a
 * user may add by hand, the combined selection with its Rutgers fallback,
 * and the list of universities every view compares, NJIT first.
 */
module Selection {
  import opened Basics
  import opened Sorting
  import opened Tables

  /** A row of the peer-group table: `PEER_TYPE`, `PEER_NAME`. */
  datatype PeerRow = PeerRow(peerType: string, peerName: string)

  /** `sorted(peer_groups_df['PEER_TYPE'].unique())`: the peer groups on offer. */
  function PeerTypes(peers: seq<PeerRow>): (r: seq<string>)
    ensures forall g :: g in r <==> exists p :: p in peers && p.peerType == g
    ensures Ascending(StrLess, r) && NoDup(r)
  {
    var types := seq(|peers|, i requires 0 <= i < |peers| => peers[i].peerType);
    var r := SortNames(Dedup(types));
    assert Elems(r) == Elems(types);
    assert forall g :: g in r <==> g in Elems(types);
    forall g | g in types
      ensures exists p :: p in peers && p.peerType == g
    {
      var k :| 0 <= k < |types| && types[k] == g;
      assert peers[k] in peers;
    }
    forall p | p in peers
      ensures p.peerType in types
    {
      var k :| 0 <= k < |peers| && peers[k] == p;
      assert types[k] == p.peerType;
    }
    r
  }

  /**
   * `peer_group_universities`: the members of the selected peer groups, in
   * the table's order, repeats kept; empty when no group is selected.
   */
  function PeerGroupUniversities(peers: seq<PeerRow>, selectedTypes: seq<string>): (r: seq<string>)
    ensures selectedTypes == [] ==> r == []
    ensures forall u :: u in r <==> exists p :: p in peers && p.peerType in selectedTypes && p.peerName == u
  {
    if selectedTypes == [] then []
    else
      var rows := Filter(peers, (p: PeerRow) => p.peerType in selectedTypes);
      var r := seq(|rows|, i requires 0 <= i < |rows| => rows[i].peerName);
      forall u | u in r
        ensures exists p :: p in peers && p.peerType in selectedTypes && p.peerName == u
      {
        var k :| 0 <= k < |r| && r[k] == u;
        assert rows[k] in rows;
      }
      forall p | p in peers && p.peerType in selectedTypes
        ensures p.peerName in r
      {
        var k :| 0 <= k < |peers| && peers[k] == p;
        assert p in rows;
        var j :| 0 <= j < |rows| && rows[j] == p;
        assert r[j] == p.peerName;
      }
      r
  }

  /** `u` is a common university with a row that passes the NJ filter. */
  predicate InNjPool(combined: Table, common: set<string>, nj: NjFilter, u: string)
  {
    u in common && exists row :: row in combined && row.name == u && PassesNj(row, nj)
  }

  lemma NamesOfFilteredCombined(combined: Table, common: set<string>, nj: NjFilter)
    ensures forall u :: u in Names(FilteredCombined(combined, common, nj)) <==> InNjPool(combined, common, nj, u)
  {
    var rows := FilteredCombined(combined, common, nj);
    forall u | u in Names(rows)
      ensures InNjPool(combined, common, nj, u)
    {
      var k :| 0 <= k < |rows| && Names(rows)[k] == u;
      assert rows[k] in combined;
    }
    forall u | InNjPool(combined, common, nj, u)
      ensures u in Names(rows)
    {
      var row :| row in combined && row.name == u && PassesNj(row, nj);
      var k :| 0 <= k < |combined| && combined[k] == row;
      assert row in rows;
      var j :| 0 <= j < |rows| && rows[j] == row;
      assert Names(rows)[j] == row.name;
    }
  }

  /**
   * `common_universities_filtered`: the universities of the NJ-filtered
   * common rows, NJIT excepted, sorted.
   */
  function CommonUniversitiesFiltered(combined: Table, common: set<string>, nj: NjFilter): (r: seq<string>)
    ensures forall u :: u in r <==> u != NJIT_NAME && InNjPool(combined, common, nj, u)
    ensures Ascending(StrLess, r) && NoDup(r)
  {
    var rows := FilteredCombined(combined, common, nj);
    var unique := Dedup(Names(rows));
    var kept := Filter(unique, u => u != NJIT_NAME);
    FilterNoDup(unique, u => u != NJIT_NAME);
    FilterMembers(unique, u => u != NJIT_NAME);
    var r := SortNames(kept);
    assert forall u :: u in r <==> u in Elems(kept);
    assert forall u :: u in unique <==> u in Elems(unique);
    assert forall u :: u in Names(rows) <==> u in Elems(Names(rows));
    assert Elems(unique) == Elems(Names(rows));
    NamesOfFilteredCombined(combined, common, nj);
    r
  }

  /**
   * `available_for_manual`: the filtered pool without peer-group members,
   * and without Rutgers while any peer group is selected.
   */
  function AvailableForManual(pool: seq<string>, peer: seq<string>, peerActive: bool): (r: seq<string>)
    ensures forall u :: u in r <==> u in pool && u !in peer && !(peerActive && u == DEFAULT_RUTGERS)
  {
    var withoutPeers := Without(pool, peer);
    if peerActive then Filter(withoutPeers, u => u != DEFAULT_RUTGERS) else withoutPeers
  }

  /**
   * The manual-candidate pool: exactly the common universities with a row
   * passing the NJ filter, minus NJIT, the selected peer-group members and,
   * while a peer group is selected, Rutgers; sorted and duplicate-free.
   */
  lemma ManualPool(combined: Table, common: set<string>, nj: NjFilter, peers: seq<PeerRow>, selectedTypes: seq<string>)
    ensures var peer := PeerGroupUniversities(peers, selectedTypes);
            var r := AvailableForManual(CommonUniversitiesFiltered(combined, common, nj), peer, selectedTypes != []);
            && (forall u :: u in r <==>
                  && InNjPool(combined, common, nj, u)
                  && u != NJIT_NAME
                  && u !in peer
                  && !(selectedTypes != [] && u == DEFAULT_RUTGERS))
            && Ascending(StrLess, r) && NoDup(r)
  {
    var pool := CommonUniversitiesFiltered(combined, common, nj);
    var peer := PeerGroupUniversities(peers, selectedTypes);
    var withoutPeers := Without(pool, peer);
    StrLessIsStrictTotalOrder();
    FilteredAscending(pool, x => x !in peer);
    FilteredAscending(withoutPeers, u => u != DEFAULT_RUTGERS);
    AscendingNoDup(StrLess, withoutPeers);
    AscendingNoDup(StrLess, Filter(withoutPeers, u => u != DEFAULT_RUTGERS));
  }

  /** A comprehension over an ascending list is ascending. */
  lemma {:induction false} FilteredAscending(s: seq<string>, p: string -> bool)
    requires Ascending(StrLess, s)
    ensures Ascending(StrLess, Filter(s, p))
  {
    if s != [] {
      FilteredAscending(s[1..], p);
      var rest := Filter(s[1..], p);
      forall k | 0 <= k < |rest|
        ensures StrLess(s[0], rest[k])
      {
        var j :| 0 <= j < |s[1..]| && s[1..][j] == rest[k];
        assert s[j + 1] == rest[k];
      }
    }
  }

  /**
   * `list(set(s))`: a duplicate-free listing of a set.  Python fixes no
   * order, and neither does this method: each step takes any element left.
   */
  method ListOfSet(s: set<string>) returns (r: seq<string>)
    ensures NoDup(r)
    ensures Elems(r) == s
  {
    r := [];
    var rest := s;
    while rest != {}
      invariant rest !! Elems(r)
      invariant rest + Elems(r) == s
      invariant NoDup(r)
      decreases rest
    {
      var u :| u in rest;
      r := r + [u];
      rest := rest - {u};
    }
  }

  /** Whether the Rutgers default fills an otherwise empty selection. */
  predicate FallsBackToRutgers(peerActive: bool, peer: seq<string>, manual: seq<string>, pool: seq<string>)
  {
    !peerActive && peer == [] && manual == [] && DEFAULT_RUTGERS in pool
  }

  /**
   * `all_selected_unis` and `universities_to_compare`, from the peer-group
   * members `peer` (empty unless a group is active), the filtered pool
   * `pool` (which never holds NJIT) and what the "Add individual
   * universities" widget returned, which is drawn from the manual pool
   * without repeats.
   */
  method ResolveSelection(peerActive: bool, peer: seq<string>, pool: seq<string>, manual: seq<string>)
    returns (allSelected: seq<string>, compare: seq<string>)
    requires !peerActive ==> peer == []
    requires NJIT_NAME !in pool
    requires NoDup(manual)
    requires forall u :: u in manual ==> u in AvailableForManual(pool, peer, peerActive)
    ensures NoDup(allSelected)
    ensures FallsBackToRutgers(peerActive, peer, manual, pool) ==> allSelected == [DEFAULT_RUTGERS]
    ensures !FallsBackToRutgers(peerActive, peer, manual, pool) ==>
      Elems(allSelected) == Elems(peer) + Elems(manual)
    ensures allSelected == [] <==>
      peer == [] && manual == [] && !FallsBackToRutgers(peerActive, peer, manual, pool)
    ensures compare == [NJIT_NAME] + allSelected
    ensures forall u :: u in peer ==> u in compare
    ensures NJIT_NAME !in peer ==> NJIT_NAME !in allSelected
  {
    allSelected := ListOfSet(Elems(peer + manual));
    assert Elems(peer + manual) == Elems(peer) + Elems(manual);
    ElemsEmpty(allSelected);
    ElemsEmpty(peer);
    ElemsEmpty(manual);
    assert forall u :: u in allSelected <==> u in Elems(allSelected);
    assert forall u :: u in peer <==> u in Elems(peer);
    assert forall u :: u in manual <==> u in Elems(manual);
    assert forall u :: u in allSelected <==> u in peer || u in manual;
    if !peerActive && allSelected == [] && DEFAULT_RUTGERS in pool {
      allSelected := [DEFAULT_RUTGERS];
    }
    compare := [NJIT_NAME] + allSelected;
  }
}
