/**
 * The interactive geocoding helper: `normalize_intersection` cleans a truck
 * stop's intersection text ("I-44, EXIT 283 & US-69" becomes "I-44 & US-69")
 * and `geocode_with_intersection` asks the geocoder for the cleaned
 * intersection in its city and state, falling back to the city alone.
 *
 * The geocoder (`geocode_address`, an HTTP request) is the parameter
 * `lookup`: it maps a query to a position, or to `None` when the service
 * answers with no result.
 */
module Geocoding {
  import opened Wrappers
  import opened PyText
  import opened ExitPattern

  /** `s.replace(",", " ")`: every comma becomes a space, nothing else changes. */
  function CommasToSpaces(s: string): (r: string)
    ensures |r| == |s| && ',' !in r
    ensures forall i :: 0 <= i < |s| && s[i] == ',' ==> r[i] == ' '
    ensures forall i :: 0 <= i < |s| && s[i] != ',' ==> r[i] == s[i]
  {
    seq(|s|, i requires 0 <= i < |s| => if s[i] == ',' then ' ' else s[i])
  }

  lemma CommasToSpacesAppend(a: string, b: string)
    ensures CommasToSpaces(a + b) == CommasToSpaces(a) + CommasToSpaces(b)
  {
  }

  /** Text without commas is left as it is. */
  lemma CommasToSpacesNone(s: string)
    requires ',' !in s
    ensures CommasToSpaces(s) == s
  {
  }

  /** `normalize_intersection(address)`: delete `EXIT <number>` in any case,
      turn commas into spaces, collapse whitespace runs to one space, strip
      the ends. */
  function NormalizeIntersection(address: string): (r: string)
    ensures ',' !in r
    ensures NoEdgeSpace(r) && NoAdjacentSpaces(r)
    ensures forall i :: 0 <= i < |r| && IsSpace(r[i]) ==> r[i] == ' '
    ensures |r| <= |address|
    ensures forall c :: c in r ==> c in address || c == ' '
  {
    var spaced := CommasToSpaces(RemoveExits(address, true));
    var r := Squeeze(spaced);
    forall c | c in r ensures c != ',' && (c in address || c == ' ') {
      if c != ' ' {
        assert c in spaced;
      }
    }
    r
  }

  /** Apart from whitespace, the result is the address with every match of
      `EXIT\s*\d+` deleted and every comma made a space. */
  lemma NormalizeKeepsText(address: string)
    ensures NonSpace(NormalizeIntersection(address))
         == NonSpace(CommasToSpaces(RemoveExits(address, true)))
  {
    SqueezeNonSpace(CommasToSpaces(RemoveExits(address, true)));
  }

  /** The steps of the function, one after the other: when each step is
      known, so is the result. */
  lemma NormalizeSteps(a: string, noExit: string, spaced: string, r: string)
    requires RemoveExits(a, true) == noExit && CommasToSpaces(noExit) == spaced
    requires CollapseSpaces(spaced) == r && NoEdgeSpace(r)
    ensures NormalizeIntersection(a) == r
  {
    SqueezeCollapsed(spaced, r);
  }

  /** A road name as the examples use it: no whitespace, no comma and no
      `E` in either case, such as `I-44` or `US-69`. */
  predicate RoadName(w: string)
  {
    && w != []
    && forall i :: 0 <= i < |w| ==>
         !IsSpace(w[i]) && w[i] != ',' && w[i] != 'E' && w[i] != 'e'
  }

  lemma RoadNameNoExit(w: string, sep: string)
    requires RoadName(w)
    requires forall i :: 0 <= i < |sep| ==> sep[i] != 'E' && sep[i] != 'e'
    ensures NoExitStart(w + sep, true) && NoExitStart(sep + w, true)
  {
  }

  lemma RoadNameNoComma(w: string, sep: string)
    requires RoadName(w) && ',' !in sep
    ensures ',' !in sep + w
  {
  }

  lemma DocPieces(road1: string, word: string, exit: string, road2: string)
    ensures road1 + ", " + word + " " + exit + " & " + road2
         == (road1 + ", ") + ((word + " " + exit) + (" & " + road2))
    ensures (road1 + ", ") + (" & " + road2) == road1 + "," + ("  & " + road2)
  {
  }

  lemma DocRemoveExits(road1: string, word: string, exit: string, road2: string)
    requires RoadName(road1) && |word| == 4 && Upper(word) == "EXIT"
    requires Number(exit) && RoadName(road2)
    ensures RemoveExits(road1 + ", " + word + " " + exit + " & " + road2, true)
         == road1 + "," + ("  & " + road2)
  {
    DocPieces(road1, word, exit, road2);
    NumberToken(word, exit, true);
    RoadNameNoExit(road1, ", ");
    RoadNameNoExit(road2, " & ");
    RemoveExitsPlainPrefix(road1 + ", ", (word + " " + exit) + (" & " + road2), true);
    RemoveExitsToken(word + " " + exit, " & " + road2, true);
    RemoveExitsPlain(" & " + road2, true);
  }

  lemma DocCommasToSpaces(road1: string, road2: string)
    requires RoadName(road1) && RoadName(road2)
    ensures CommasToSpaces(road1 + "," + ("  & " + road2)) == road1 + ("   & " + road2)
  {
    RoadNameNoComma(road1, []);
    RoadNameNoComma(road2, "  & ");
    assert [] + road1 == road1;
    CommasToSpacesAppend(road1 + ",", "  & " + road2);
    CommasToSpacesAppend(road1, ",");
    CommasToSpacesNone(road1);
    CommasToSpacesNone("  & " + road2);
    assert road1 + " " + ("  & " + road2) == road1 + ("   & " + road2);
  }

  /** The example of the function's own documentation, for every pair of road
      names, every exit number and the word `EXIT` in any case:
      "I-44, EXIT 283 & US-69" becomes "I-44 & US-69", and so does
      "I-44, Exit 283 & US-69". */
  lemma DocExample(road1: string, word: string, exit: string, road2: string)
    requires RoadName(road1) && |word| == 4 && Upper(word) == "EXIT"
    requires Number(exit) && RoadName(road2)
    ensures NormalizeIntersection(road1 + ", " + word + " " + exit + " & " + road2)
         == road1 + " & " + road2
  {
    DocRemoveExits(road1, word, exit, road2);
    DocCommasToSpaces(road1, road2);
    AmpersandCollapse(road1, road2);
    AmpersandTrimmed(road1, road2);
    NormalizeSteps(road1 + ", " + word + " " + exit + " & " + road2,
                   road1 + "," + ("  & " + road2), road1 + ("   & " + road2),
                   road1 + " & " + road2);
  }

  lemma NestedPieces(first: string, second: string)
    ensures "EXEXIT " + first + "IT " + second
         == "E" + ("XEXIT " + first + "IT " + second)
    ensures "XEXIT " + first + "IT " + second
         == "X" + ("EXIT " + first + "IT " + second)
    ensures "EXIT " + first + "IT " + second
         == ("EXIT" + " " + first) + ("IT " + second)
    ensures "E" + ("X" + ("IT " + second)) == "EXIT " + second
  {
  }

  lemma NestedStart(first: string, second: string)
    ensures MatchLength("EXEXIT " + first + "IT " + second, true) == 0
    ensures MatchLength("XEXIT " + first + "IT " + second, true) == 0
  {
    var s := "EXEXIT " + first + "IT " + second;
    var t := "XEXIT " + first + "IT " + second;
    assert s[..4] == "EXEX" && !IsExitWord(s[..4], true);
    assert t[..4] == "XEXI" && !IsExitWord(t[..4], true);
  }

  lemma ItNoExit(second: string)
    requires Number(second)
    ensures NoExitStart("IT " + second, true)
    ensures !IsDigit(("IT " + second)[0])
  {
  }

  lemma NestedInner(first: string, second: string)
    requires Number(first) && Number(second)
    ensures RemoveExits(("EXIT" + " " + first) + ("IT " + second), true) == "IT " + second
  {
    NumberToken("EXIT", first, true);
    ItNoExit(second);
    RemoveExitsToken("EXIT" + " " + first, "IT " + second, true);
    RemoveExitsPlain("IT " + second, true);
  }

  /** The scan keeps `E`, keeps `X`, deletes `EXIT <first>` and keeps the rest. */
  lemma NestedRemoveExits(first: string, second: string)
    requires Number(first) && Number(second)
    ensures RemoveExits("EXEXIT " + first + "IT " + second, true) == "EXIT " + second
  {
    NestedPieces(first, second);
    NestedStart(first, second);
    RemoveExitsKeep("EXEXIT " + first + "IT " + second, true);
    RemoveExitsKeep("XEXIT " + first + "IT " + second, true);
    NestedInner(first, second);
  }

  lemma ExitNoComma(exit: string)
    requires Number(exit)
    ensures CommasToSpaces("EXIT " + exit) == "EXIT " + exit
  {
    assert ',' !in "EXIT " + exit;
    CommasToSpacesNone("EXIT " + exit);
  }

  lemma NestedNormalized(first: string, second: string)
    requires Number(first) && Number(second)
    ensures NormalizeIntersection("EXEXIT " + first + "IT " + second) == "EXIT " + second
  {
    NestedRemoveExits(first, second);
    ExitNoComma(second);
    ExitCollapse(second);
    ExitTrimmed(second);
    NormalizeSteps("EXEXIT " + first + "IT " + second,
                   "EXIT " + second, "EXIT " + second, "EXIT " + second);
  }

  lemma ExitNormalized(exit: string)
    requires Number(exit)
    ensures NormalizeIntersection("EXIT " + exit) == ""
  {
    ExitRemoved(exit, true);
    assert CommasToSpaces([]) == [] && CollapseSpaces([]) == [];
    NormalizeSteps("EXIT " + exit, [], [], []);
  }

  /** Not idempotent: one left-to-right pass can leave an `EXIT <number>`
      behind ("EXEXIT 1IT 2" becomes "EXIT 2"), and a second pass deletes it. */
  lemma NotIdempotent(first: string, second: string)
    requires Number(first) && Number(second)
    ensures NormalizeIntersection("EXEXIT " + first + "IT " + second) == "EXIT " + second
    ensures NormalizeIntersection(NormalizeIntersection("EXEXIT " + first + "IT " + second)) == ""
  {
    NestedNormalized(first, second);
    ExitNormalized(second);
  }

  /** A position as the geocoder reports it. */
  datatype LatLon = LatLon(lat: real, lon: real)

  /** The query for the city alone: `f"{city}, {state}, USA"`. */
  function CityQuery(city: string, state: string): string
  {
    city + ", " + state + ", USA"
  }

  /** The queries sent to the geocoder, in order, and the position returned. */
  datatype Geocoded = Geocoded(queries: seq<string>, position: Option<LatLon>)

  /** `geocode_with_intersection(row)`: ask for the cleaned intersection in
      its city and state; only when that finds nothing, ask for the city. */
  function GeocodeWithIntersection(address: string, city: string, state: string,
                                   lookup: string -> Option<LatLon>): (g: Geocoded)
    ensures 1 <= |g.queries| <= 2
    ensures g.queries[0] == NormalizeIntersection(address) + ", " + CityQuery(city, state)
    ensures |g.queries| == 2 <==> lookup(g.queries[0]).None?
    ensures |g.queries| == 2 ==> g.queries[1] == CityQuery(city, state)
    ensures g.position == lookup(g.queries[|g.queries| - 1])
  {
    var cleaned := NormalizeIntersection(address);
    var fullQuery := cleaned + ", " + CityQuery(city, state);
    match lookup(fullQuery)
    case Some(p) => Geocoded([fullQuery], Some(p))
    case None =>
      var fallbackQuery := CityQuery(city, state);
      Geocoded([fullQuery, fallbackQuery], lookup(fallbackQuery))
  }

  /** No position comes back exactly when neither the intersection nor the
      city is found, and a position that comes back is the intersection's
      when the intersection is found. */
  lemma GeocodeOutcome(address: string, city: string, state: string,
                       lookup: string -> Option<LatLon>)
    ensures var full := NormalizeIntersection(address) + ", " + CityQuery(city, state);
      var g := GeocodeWithIntersection(address, city, state, lookup);
      && (g.position.None? <==> lookup(full).None? && lookup(CityQuery(city, state)).None?)
      && (lookup(full).Some? ==> g.position == lookup(full))
      && (lookup(full).None? ==> g.position == lookup(CityQuery(city, state)))
  {
  }
}
