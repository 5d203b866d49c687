/**
 * `normalize_intersection` of the batch geocoding script: it cleans a truck
 * stop's intersection text before it is sent to the geocoder, so that
 * "I-85,  EXIT 22 & CR-138" becomes "I-85 & CR-138".
 */
module GecodeTruks {
  import opened Wrappers
  import opened PyText
  import opened ExitPattern

  /** `s.replace(",", "")`: every comma deleted, every other character kept. */
  function DeleteCommas(s: string): (r: string)
    ensures ',' !in r
    ensures multiset(r) == multiset(s)[',' := 0]
    ensures |r| <= |s|
    ensures forall c :: c in r ==> c in s
  {
    if s == [] then []
    else
      assert s == [s[0]] + s[1..];
      (if s[0] == ',' then [] else [s[0]]) + DeleteCommas(s[1..])
  }

  /** Deleting commas works piece by piece, so the order of what is kept is unchanged. */
  lemma {:induction false} DeleteCommasAppend(a: string, b: string)
    ensures DeleteCommas(a + b) == DeleteCommas(a) + DeleteCommas(b)
  {
    if a == [] {
      assert a + b == b;
    } else {
      assert (a + b)[0] == a[0];
      assert (a + b)[1..] == a[1..] + b;
      DeleteCommasAppend(a[1..], b);
    }
  }

  /** Text without commas is left as it is. */
  lemma {:induction false} DeleteCommasNone(s: string)
    requires ',' !in s
    ensures DeleteCommas(s) == s
  {
    if s != [] {
      assert s == [s[0]] + s[1..];
      DeleteCommasNone(s[1..]);
    }
  }

  lemma DeleteCommasSplit(a: string, b: string)
    ensures DeleteCommas(a + "," + b) == DeleteCommas(a + ",") + DeleteCommas(b)
  {
    DeleteCommasAppend(a + ",", b);
  }

  lemma DeleteCommasTrailing(a: string)
    requires ',' !in a
    ensures DeleteCommas(a + ",") == a
  {
    DeleteCommasAppend(a, ",");
    DeleteCommasNone(a);
    assert DeleteCommas(",") == [];
  }

  /** A single comma between comma-free texts is deleted and the texts joined. */
  lemma DeleteCommasOne(a: string, b: string)
    requires ',' !in a && ',' !in b
    ensures DeleteCommas(a + "," + b) == a + b
  {
    DeleteCommasSplit(a, b);
    DeleteCommasTrailing(a);
    DeleteCommasNone(b);
  }

  /** `normalize_intersection(address)`; `None` is a missing address (pandas
      `isna`: None or NaN). Upper-case, delete `EXIT <number>`, delete commas,
      collapse whitespace runs to one space, strip the ends. */
  function NormalizeIntersection(address: Option<string>): (r: string)
    ensures address.None? ==> r == ""
    ensures ',' !in r
    ensures NoEdgeSpace(r) && NoAdjacentSpaces(r)
    ensures forall i :: 0 <= i < |r| ==> !IsLowerAscii(r[i])
    ensures address.Some? ==> |r| <= |address.value|
  {
    match address
    case None => ""
    case Some(a) =>
      var noComma := DeleteCommas(RemoveExits(Upper(a), false));
      var r := Squeeze(noComma);
      forall i | 0 <= i < |r| ensures !IsLowerAscii(r[i]) && r[i] != ',' {
        assert r[i] in r;
      }
      r
  }

  /** Apart from whitespace, the result is the upper-cased address with every
      `EXIT <number>` and every comma deleted. */
  lemma NormalizeKeepsText(a: string)
    ensures NonSpace(NormalizeIntersection(Some(a)))
         == NonSpace(DeleteCommas(RemoveExits(Upper(a), false)))
  {
    SqueezeNonSpace(DeleteCommas(RemoveExits(Upper(a), false)));
  }

  /** The steps of the function, one after the other: when each step is
      known, so is the result. */
  lemma NormalizeSteps(a: string, upper: string, noExit: string, noComma: string, r: string)
    requires Upper(a) == upper && RemoveExits(upper, false) == noExit
    requires DeleteCommas(noExit) == noComma && CollapseSpaces(noComma) == r
    requires NoEdgeSpace(r)
    ensures NormalizeIntersection(Some(a)) == r
  {
    SqueezeCollapsed(noComma, r);
  }

  /** A road name as the examples use it: no whitespace, no comma, no
      lower-case letter and no `E`, such as `I-85` or `CR-138`. */
  predicate RoadName(w: string)
  {
    && w != []
    && forall i :: 0 <= i < |w| ==>
         !IsSpace(w[i]) && w[i] != ',' && !IsLowerAscii(w[i]) && w[i] != 'E'
  }

  lemma RoadNameText(w: string, sep: string)
    requires RoadName(w)
    requires forall i :: 0 <= i < |sep| ==> sep[i] != 'E' && !IsLowerAscii(sep[i])
    ensures NoExitStart(w + sep, false) && NoExitStart(sep + w, false)
    ensures forall i :: 0 <= i < |w + sep| ==> !IsLowerAscii((w + sep)[i])
    ensures forall i :: 0 <= i < |sep + w| ==> !IsLowerAscii((sep + w)[i])
  {
  }

  lemma DocInputUpper(road1: string, exit: string, road2: string)
    requires RoadName(road1) && Number(exit) && RoadName(road2)
    ensures Upper(road1 + ",  EXIT " + exit + " & " + road2)
         == road1 + ",  EXIT " + exit + " & " + road2
  {
    UpperNoLower(road1 + ",  EXIT " + exit + " & " + road2);
  }

  lemma DocInputPieces(road1: string, exit: string, road2: string)
    ensures road1 + ",  EXIT " + exit + " & " + road2
         == (road1 + ",  ") + (("EXIT" + " " + exit) + (" & " + road2))
    ensures (road1 + ",  ") + (" & " + road2) == road1 + "," + ("   & " + road2)
  {
  }

  lemma DocRemoveExits(road1: string, exit: string, road2: string)
    requires RoadName(road1) && Number(exit) && RoadName(road2)
    ensures RemoveExits(road1 + ",  EXIT " + exit + " & " + road2, false)
         == road1 + "," + ("   & " + road2)
  {
    DocInputPieces(road1, exit, road2);
    NumberToken("EXIT", exit, false);
    RoadNameText(road1, ",  ");
    RoadNameText(road2, " & ");
    RemoveExitsPlainPrefix(road1 + ",  ", ("EXIT" + " " + exit) + (" & " + road2), false);
    RemoveExitsToken("EXIT" + " " + exit, " & " + road2, false);
    RemoveExitsPlain(" & " + road2, false);
  }

  lemma DocDeleteCommas(road1: string, road2: string)
    requires RoadName(road1) && RoadName(road2)
    ensures DeleteCommas(road1 + "," + ("   & " + road2)) == road1 + ("   & " + road2)
  {
    RoadNameText(road2, "   & ");
    DeleteCommasOne(road1, "   & " + road2);
  }

  /** The example of the function's own documentation, for every pair of road
      names and every exit number: "I-85,  EXIT 22 & CR-138" becomes
      "I-85 & CR-138". */
  lemma DocExample(road1: string, exit: string, road2: string)
    requires RoadName(road1) && Number(exit) && RoadName(road2)
    ensures NormalizeIntersection(Some(road1 + ",  EXIT " + exit + " & " + road2))
         == road1 + " & " + road2
  {
    var s := road1 + ",  EXIT " + exit + " & " + road2;
    DocInputUpper(road1, exit, road2);
    DocRemoveExits(road1, exit, road2);
    DocDeleteCommas(road1, road2);
    AmpersandCollapse(road1, road2);
    AmpersandTrimmed(road1, road2);
    NormalizeSteps(s, s, road1 + "," + ("   & " + road2), road1 + ("   & " + road2),
                   road1 + " & " + road2);
  }

  lemma ReassembledPieces(exit: string)
    ensures "EX,IT " + exit == "EX" + "," + ("IT " + exit)
    ensures "EX" + ("IT " + exit) == "EXIT " + exit
  {
  }

  lemma ReassembledStart(exit: string)
    ensures MatchLength("EX,IT " + exit, false) == 0
    ensures ("EX,IT " + exit)[0] == 'E' && ("EX,IT " + exit)[1..] == "X,IT " + exit
  {
    var s := "EX,IT " + exit;
    assert s[..4] == "EX,I" && !IsExitWord(s[..4], false);
  }

  lemma ReassembledTail(exit: string)
    requires Number(exit)
    ensures NoExitStart("X,IT " + exit, false)
  {
  }

  lemma ReassembledRemoveExits(exit: string)
    requires Number(exit)
    ensures RemoveExits("EX,IT " + exit, false) == "EX,IT " + exit
  {
    ReassembledStart(exit);
    RemoveExitsKeep("EX,IT " + exit, false);
    ReassembledTail(exit);
    RemoveExitsPlain("X,IT " + exit, false);
    assert "EX,IT " + exit == ['E'] + ("X,IT " + exit);
  }

  lemma ReassembledDeleteCommas(exit: string)
    requires Number(exit)
    ensures DeleteCommas("EX,IT " + exit) == "EXIT " + exit
  {
    ReassembledPieces(exit);
    DeleteCommasOne("EX", "IT " + exit);
  }

  lemma ReassembledUpper(exit: string)
    requires Number(exit)
    ensures Upper("EX,IT " + exit) == "EX,IT " + exit
  {
    UpperNoLower("EX,IT " + exit);
  }

  lemma ExitUpper(exit: string)
    requires Number(exit)
    ensures Upper("EXIT " + exit) == "EXIT " + exit
  {
    UpperNoLower("EXIT " + exit);
  }

  lemma ReassembledNormalized(exit: string)
    requires Number(exit)
    ensures NormalizeIntersection(Some("EX,IT " + exit)) == "EXIT " + exit
  {
    ReassembledUpper(exit);
    ReassembledRemoveExits(exit);
    ReassembledDeleteCommas(exit);
    ExitCollapse(exit);
    ExitTrimmed(exit);
    NormalizeSteps("EX,IT " + exit, "EX,IT " + exit, "EX,IT " + exit, "EXIT " + exit,
                   "EXIT " + exit);
  }

  lemma ExitNormalized(exit: string)
    requires Number(exit)
    ensures NormalizeIntersection(Some("EXIT " + exit)) == ""
  {
    ExitUpper(exit);
    ExitRemoved(exit, false);
    assert DeleteCommas([]) == [] && CollapseSpaces([]) == [];
    NormalizeSteps("EXIT " + exit, "EXIT " + exit, [], [], []);
  }

  /** Not idempotent: deleting a comma can assemble a fresh `EXIT <number>`
      ("EX,IT 5" becomes "EXIT 5"), which the output then still holds and a
      second pass deletes. */
  lemma NotIdempotent(exit: string)
    requires Number(exit)
    ensures NormalizeIntersection(Some("EX,IT " + exit)) == "EXIT " + exit
    ensures NormalizeIntersection(Some(NormalizeIntersection(Some("EX,IT " + exit)))) == ""
  {
    ReassembledNormalized(exit);
    ExitNormalized(exit);
  }
}
