/**
 * `create_color_map`: every compared university gets one display colour,
 * its reserved one when it has one, otherwise a palette colour picked by a
 * hash of its name.  Python's `str` hash is salted per process, so the
 * hash is a parameter `h` here; Python's `%` by a positive number is
 * Dafny's `%`, so the palette index is always in range.
 */
module Colors {
  import opened Basics
  import opened Tables

  const NJIT_COLOR: string := "#E10600"

  /** The reserved colours: NJIT and the members of the three peer groups. */
  const FIXED_COLORS: map<string, string> := map[
    NJIT_NAME := NJIT_COLOR,
    "Clarkson University" := "#FF7F0E",
    "Colorado School of Mines" := "#2CA02C",
    "Florida Institute of Technology" := "#D62728",
    "Illinois Institute of Technology" := "#9467BD",
    "Michigan Technological University" := "#8C564B",
    "Missouri University of Science and Technology" := "#E377C2",
    "Rensselaer Polytechnic Institute" := "#7F7F7F",
    "Stevens Institute of Technology" := "#BCBD22",
    "Worcester Polytechnic Institute" := "#17BECF",
    "California Institute of Technology" := "#FF9896",
    "Carnegie Mellon University" := "#98DF8A",
    "Georgia Institute of Technology-Main Campus" := "#FFBB78",
    "Massachusetts Institute of Technology" := "#C5B0D5",
    "Montclair State University" := "#C49C94",
    "Rowan University" := "#F7B6D2",
    DEFAULT_RUTGERS := "#1F77B4",
    "Rutgers University-Newark" := "#C7C7C7",
    "Seton Hall University" := "#DBDB8D"
  ]

  /** The fallback palette for every other university. */
  const FALLBACK_COLORS: seq<string> := [
    "#1f77b4", "#ff7f0e", "#2ca02c", "#d62728", "#9467bd",
    "#8c564b", "#e377c2", "#7f7f7f", "#bcbd22", "#17becf",
    "#aec7e8", "#ffbb78", "#98df8a", "#ff9896", "#c5b0d5",
    "#c49c94", "#f7b6d2", "#c7c7c7", "#dbdb8d", "#9edae5"
  ]

  /**
   * The colour of one university.  It depends on the name alone, never on
   * the other universities of the list or their order; NJIT's red is
   * reserved for NJIT.
   */
  function ColorOf(h: string -> int, uni: string): (c: string)
    ensures c in FIXED_COLORS.Values || c in FALLBACK_COLORS
    ensures uni == NJIT_NAME <==> c == NJIT_COLOR
  {
    if uni in FIXED_COLORS then FIXED_COLORS[uni]
    else FALLBACK_COLORS[h(uni) % |FALLBACK_COLORS|]
  }

  /** A university of the reserved table keeps its colour whatever the hash. */
  lemma FixedColorIgnoresHash(h1: string -> int, h2: string -> int, uni: string)
    requires uni in FIXED_COLORS
    ensures ColorOf(h1, uni) == ColorOf(h2, uni) == FIXED_COLORS[uni]
  {
  }

  /** Two hashes that agree on a name give it the same colour. */
  lemma FallbackColorFollowsHash(h1: string -> int, h2: string -> int, uni: string)
    requires uni !in FIXED_COLORS
    requires h1(uni) % 20 == h2(uni) % 20
    ensures ColorOf(h1, uni) == ColorOf(h2, uni) == FALLBACK_COLORS[h1(uni) % 20]
  {
  }

  /**
   * `create_color_map(universities_list)`: one entry per listed university,
   * each holding that university's colour.
   */
  method CreateColorMap(universities: seq<string>, h: string -> int) returns (colorMap: map<string, string>)
    ensures colorMap.Keys == Elems(universities)
    ensures forall u :: u in colorMap ==> colorMap[u] == ColorOf(h, u)
  {
    colorMap := map[];
    var i := 0;
    while i < |universities|
      invariant 0 <= i <= |universities|
      invariant colorMap.Keys == Elems(universities[..i])
      invariant forall u :: u in colorMap ==> colorMap[u] == ColorOf(h, u)
    {
      var uni := universities[i];
      if uni in FIXED_COLORS {
        colorMap := colorMap[uni := FIXED_COLORS[uni]];
      } else {
        colorMap := colorMap[uni := FALLBACK_COLORS[h(uni) % |FALLBACK_COLORS|]];
      }
      assert universities[..i + 1] == universities[..i] + [uni];
      i := i + 1;
    }
    assert universities[..i] == universities;
  }
}
