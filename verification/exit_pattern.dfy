/**
 * The regular expression `EXIT\s*\d+` as `re.sub(pattern, "", s)` applies it:
 * scanning left to right, at each position try a match; a match is deleted and
 * scanning resumes after it, otherwise the character is kept and scanning
 * resumes one position later. `\s*` and `\d+` are greedy, so a match takes the
 * whole whitespace run and the whole digit run after it, and exists only when
 * a digit follows the whitespace run. With `ignoreCase` the word `EXIT` is
 * matched in any ASCII case (the `re.IGNORECASE` flag).
 */
module ExitPattern {
  import opened PyText

  /** The literal `EXIT` at the start of a match. */
  function IsExitWord(w: string, ignoreCase: bool): (b: bool)
    requires |w| == 4
    ensures !ignoreCase ==> (b <==> w == "EXIT")
    ensures ignoreCase ==> (b <==> Upper(w) == "EXIT")
  {
    if ignoreCase then
      w[0] in "Ee" && w[1] in "Xx" && w[2] in "Ii" && w[3] in "Tt"
    else
      w[0] == 'E' && w[1] == 'X' && w[2] == 'I' && w[3] == 'T'
  }

  /** `m` is a whole match of `EXIT\s*\d+`: the word, then whitespace, then at
      least one digit, and no whitespace after the first digit. */
  predicate IsExitToken(m: string, ignoreCase: bool)
  {
    && |m| >= 5
    && IsExitWord(m[..4], ignoreCase)
    && IsDigit(m[|m| - 1])
    && (forall k :: 4 <= k < |m| ==> IsSpace(m[k]) || IsDigit(m[k]))
    && (forall j, k :: 4 <= j < k < |m| && IsDigit(m[j]) ==> IsDigit(m[k]))
  }

  /** Some prefix of `s` matches the pattern. */
  ghost predicate StartsWithToken(s: string, ignoreCase: bool)
  {
    exists m :: 0 < m <= |s| && IsExitToken(s[..m], ignoreCase)
  }

  /** The end of the whitespace run that starts at `i`. */
  function SpanSpaces(s: string, i: nat): (j: nat)
    requires i <= |s|
    ensures i <= j <= |s|
    ensures forall k :: i <= k < j ==> IsSpace(s[k])
    ensures j == |s| || !IsSpace(s[j])
    decreases |s| - i
  {
    if i < |s| && IsSpace(s[i]) then SpanSpaces(s, i + 1) else i
  }

  /** The end of the digit run that starts at `i`. */
  function SpanDigits(s: string, i: nat): (j: nat)
    requires i <= |s|
    ensures i <= j <= |s|
    ensures forall k :: i <= k < j ==> IsDigit(s[k])
    ensures j == |s| || !IsDigit(s[j])
    decreases |s| - i
  {
    if i < |s| && IsDigit(s[i]) then SpanDigits(s, i + 1) else i
  }

  /** If a match starts at position 0, its length after the greedy `\s*` and
      `\d+`; otherwise 0. */
  function MatchLength(s: string, ignoreCase: bool): (n: nat)
    ensures n <= |s|
    ensures n > 0 ==> IsExitToken(s[..n], ignoreCase) && (n == |s| || !IsDigit(s[n]))
    ensures n == 0 ==> !StartsWithToken(s, ignoreCase)
  {
    if |s| >= 5 && IsExitWord(s[..4], ignoreCase) then
      var w := SpanSpaces(s, 4);
      var d := SpanDigits(s, w);
      if w < d then
        assert s[..d][..4] == s[..4];
        d
      else
        NoTokenWithoutDigit(s, ignoreCase, w);
        0
    else
      NoTokenWithoutWord(s, ignoreCase);
      0
  }

  lemma NoTokenWithoutWord(s: string, ignoreCase: bool)
    requires !(|s| >= 5 && IsExitWord(s[..4], ignoreCase))
    ensures !StartsWithToken(s, ignoreCase)
  {
    forall m | 0 < m <= |s| && |s[..m]| >= 5 ensures !IsExitToken(s[..m], ignoreCase) {
      assert s[..m][..4] == s[..4];
    }
  }

  lemma NoTokenWithoutDigit(s: string, ignoreCase: bool, w: nat)
    requires |s| >= 5 && w == SpanSpaces(s, 4)
    requires w == |s| || !IsDigit(s[w])
    ensures !StartsWithToken(s, ignoreCase)
  {
    forall m | 0 < m <= |s| ensures !IsExitToken(s[..m], ignoreCase) {
      var t := s[..m];
      if 5 <= m <= w {
        // the whitespace run reaches the last character, which is then no digit
        assert t[m - 1] == s[m - 1] && IsSpace(s[m - 1]);
      } else if w < m {
        // the character ending the whitespace run is neither whitespace nor digit
        assert t[w] == s[w] && !IsSpace(s[w]) && !IsDigit(s[w]);
      }
    }
  }

  /** A match whose digit run is maximal cannot be extended: no longer prefix matches. */
  lemma TokenMaximal(s: string, ignoreCase: bool, m: nat)
    requires 0 < m <= |s|
    requires IsExitToken(s[..m], ignoreCase) && (m == |s| || !IsDigit(s[m]))
    ensures forall n :: m < n <= |s| ==> !IsExitToken(s[..n], ignoreCase)
  {
    forall n | m < n <= |s| ensures !IsExitToken(s[..n], ignoreCase) {
      var t := s[..n];
      assert s[..m][m - 1] == s[m - 1] && IsDigit(s[m - 1]);
      assert t[m - 1] == s[m - 1] && t[m] == s[m];
    }
  }

  /** One step of the scan: a character that is kept, or a match that is deleted. */
  datatype Piece = Kept(c: char) | Cut(token: string)

  /** The text a list of pieces was read from. */
  function Joined(ps: seq<Piece>): string
  {
    if ps == [] then []
    else (match ps[0] case Kept(c) => [c] case Cut(t) => t) + Joined(ps[1..])
  }

  /** The text that remains once every cut piece is deleted. */
  function KeptText(ps: seq<Piece>): (r: string)
    ensures |r| <= |Joined(ps)|
    ensures forall c :: c in r ==> c in Joined(ps)
  {
    if ps == [] then []
    else
      var rest := KeptText(ps[1..]);
      match ps[0]
      case Kept(c) => [c] + rest
      case Cut(t) => rest
  }

  /** The left-to-right scan that `re.sub` performs, as a list of pieces. */
  function Scan(s: string, ignoreCase: bool): (ps: seq<Piece>)
    ensures Joined(ps) == s
    decreases |s|
  {
    if s == [] then []
    else
      var n := MatchLength(s, ignoreCase);
      var head := if n > 0 then Cut(s[..n]) else Kept(s[0]);
      var rest := Scan(s[if n > 0 then n else 1..], ignoreCase);
      assert ([head] + rest)[1..] == rest;
      assert s == s[..if n > 0 then n else 1] + s[if n > 0 then n else 1..];
      [head] + rest
  }

  /** `re.sub(r"EXIT\s*\d+", "", s)`, case-insensitively when `ignoreCase`. */
  function RemoveExits(s: string, ignoreCase: bool): (r: string)
    ensures |r| <= |s|
    ensures forall c :: c in r ==> c in s
  {
    KeptText(Scan(s, ignoreCase))
  }

  /** The text still to be scanned when the scan reaches piece `k`. */
  function Remaining(ps: seq<Piece>, k: nat): string
    requires k <= |ps|
  {
    Joined(ps[k..])
  }

  /** Piece `k` is sound: a cut piece is a whole match that cannot be
      extended, and no match starts at a kept character. */
  ghost predicate PieceOk(ps: seq<Piece>, k: nat, ignoreCase: bool)
    requires k < |ps|
  {
    match ps[k]
    case Cut(t) =>
      && IsExitToken(t, ignoreCase)
      && (Remaining(ps, k + 1) == [] || !IsDigit(Remaining(ps, k + 1)[0]))
    case Kept(_) => !StartsWithToken(Remaining(ps, k), ignoreCase)
  }

  /** Every piece is sound: the matches deleted are the leftmost ones, taken
      greedily and without overlap, and nothing else is deleted. */
  ghost predicate LeftmostLongest(ps: seq<Piece>, ignoreCase: bool)
  {
    forall k :: 0 <= k < |ps| ==> PieceOk(ps, k, ignoreCase)
  }

  /** The scan reads the input back exactly and deletes just the leftmost longest matches. */
  lemma {:induction false} ScanLeftmostLongest(s: string, ignoreCase: bool)
    ensures LeftmostLongest(Scan(s, ignoreCase), ignoreCase)
    decreases |s|
  {
    var ps := Scan(s, ignoreCase);
    if s != [] {
      var n := MatchLength(s, ignoreCase);
      var rest := s[if n > 0 then n else 1..];
      ScanLeftmostLongest(rest, ignoreCase);
      var tail := Scan(rest, ignoreCase);
      assert ps == [ps[0]] + tail;
      forall k | 0 <= k < |ps| ensures PieceOk(ps, k, ignoreCase) {
        if k == 0 {
          assert ps[1..] == tail && ps[0..] == ps;
          assert Remaining(ps, 1) == rest;
          assert Remaining(ps, 0) == s;
          if n > 0 {
            assert ps[0] == Cut(s[..n]);
          } else {
            assert ps[0] == Kept(s[0]);
          }
        } else {
          assert PieceOk(tail, k - 1, ignoreCase);
          assert ps[k] == tail[k - 1];
          assert ps[k..] == tail[k - 1..];
          assert ps[k + 1..] == tail[k..];
          assert Remaining(ps, k) == Remaining(tail, k - 1);
          assert Remaining(ps, k + 1) == Remaining(tail, k);
        }
      }
    } else {
      assert ps == [];
    }
  }

  /** Where no match starts, the first character is kept. */
  lemma RemoveExitsKeep(s: string, ignoreCase: bool)
    requires s != [] && MatchLength(s, ignoreCase) == 0
    ensures RemoveExits(s, ignoreCase) == [s[0]] + RemoveExits(s[1..], ignoreCase)
  {
    var ps := Scan(s, ignoreCase);
    assert ps == [Kept(s[0])] + Scan(s[1..], ignoreCase);
    assert ps[1..] == Scan(s[1..], ignoreCase);
  }

  /** Where a match starts, it is deleted whole. */
  lemma RemoveExitsCut(s: string, ignoreCase: bool)
    requires MatchLength(s, ignoreCase) > 0
    ensures RemoveExits(s, ignoreCase) == RemoveExits(s[MatchLength(s, ignoreCase)..], ignoreCase)
  {
    var n := MatchLength(s, ignoreCase);
    var ps := Scan(s, ignoreCase);
    assert ps == [Cut(s[..n])] + Scan(s[n..], ignoreCase);
    assert ps[1..] == Scan(s[n..], ignoreCase);
  }

  /** No match can start inside `a`: it holds no letter that begins `EXIT`. */
  predicate NoExitStart(a: string, ignoreCase: bool)
  {
    forall i :: 0 <= i < |a| ==> a[i] != 'E' && (ignoreCase ==> a[i] != 'e')
  }

  /** Text in which no match can start is copied through unchanged. */
  lemma {:induction false} RemoveExitsPlainPrefix(a: string, b: string, ignoreCase: bool)
    requires NoExitStart(a, ignoreCase)
    ensures RemoveExits(a + b, ignoreCase) == a + RemoveExits(b, ignoreCase)
  {
    if a == [] {
      assert a + b == b;
    } else {
      var s := a + b;
      if |s| >= 5 {
        assert s[..4][0] == a[0];
        assert !IsExitWord(s[..4], ignoreCase);
      }
      assert MatchLength(s, ignoreCase) == 0;
      RemoveExitsKeep(s, ignoreCase);
      assert s[1..] == a[1..] + b;
      RemoveExitsPlainPrefix(a[1..], b, ignoreCase);
      assert a == [a[0]] + a[1..];
    }
  }

  /** A whole match, not followed by a digit, is deleted. */
  lemma RemoveExitsToken(t: string, b: string, ignoreCase: bool)
    requires IsExitToken(t, ignoreCase)
    requires b == [] || !IsDigit(b[0])
    ensures RemoveExits(t + b, ignoreCase) == RemoveExits(b, ignoreCase)
  {
    var s := t + b;
    assert s[..|t|] == t;
    assert |t| == |s| || !IsDigit(s[|t|]);
    var n := MatchLength(s, ignoreCase);
    assert StartsWithToken(s, ignoreCase);
    TokenMaximal(s, ignoreCase, n);
    TokenMaximal(s, ignoreCase, |t|);
    assert n == |t|;
    assert s[n..] == b;
    RemoveExitsCut(s, ignoreCase);
  }

  /** Text in which no match can start is left as it is. */
  lemma RemoveExitsPlain(a: string, ignoreCase: bool)
    requires NoExitStart(a, ignoreCase)
    ensures RemoveExits(a, ignoreCase) == a
  {
    RemoveExitsPlainPrefix(a, [], ignoreCase);
    assert a + [] == a;
    assert Scan([], ignoreCase) == [];
  }

  /** An exit number: one or more digits. */
  predicate Number(n: string)
  {
    n != [] && forall i :: 0 <= i < |n| ==> IsDigit(n[i])
  }

  /** The word, one space and a number make a whole match. */
  lemma NumberToken(word: string, n: string, ignoreCase: bool)
    requires |word| == 4 && IsExitWord(word, ignoreCase) && Number(n)
    ensures IsExitToken(word + " " + n, ignoreCase)
  {
    var t := word + " " + n;
    assert t[..4] == word;
    assert forall k :: 5 <= k < |t| ==> t[k] == n[k - 5];
  }

  lemma ExitPieces(exit: string)
    ensures "EXIT " + exit == "EXIT" + (" " + exit)
    ensures "EXIT " + exit == "EXIT" + " " + exit
    ensures "EXIT " + exit + [] == "EXIT " + exit
    ensures "EXIT" + ([' '] + exit) == "EXIT " + exit
    ensures exit + [] == exit
  {
  }

  /** `EXIT <number>` on its own is deleted whole. */
  lemma ExitRemoved(exit: string, ignoreCase: bool)
    requires Number(exit)
    ensures RemoveExits("EXIT " + exit, ignoreCase) == []
  {
    ExitPieces(exit);
    NumberToken("EXIT", exit, ignoreCase);
    RemoveExitsToken("EXIT " + exit, [], ignoreCase);
    assert Scan([], ignoreCase) == [];
  }

  /** `EXIT <number>` has a single space, which the collapse keeps. */
  lemma ExitCollapse(exit: string)
    requires Number(exit)
    ensures CollapseSpaces("EXIT " + exit) == "EXIT " + exit
  {
    ExitPieces(exit);
    CollapseGap("EXIT", " ", exit);
    CollapseWord(exit, []);
  }

  lemma ExitTrimmed(exit: string)
    requires Number(exit)
    ensures NoEdgeSpace("EXIT " + exit)
  {
  }
}
