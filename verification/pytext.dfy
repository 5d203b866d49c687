/**
 * The pieces of Python's `str` behaviour that the address normalisers use:
 * whitespace as `str.isspace` and the regex class `\s` see it, ASCII
 * upper-casing, `str.strip()` and `re.sub(r"\s+", " ", s)`.
 */
module PyText {

  /** Python's `str.isspace`, which is also the set `\s` matches in a str
      pattern and the set `str.strip()` removes. */
  predicate IsSpace(c: char)
  {
    || c == ' '
    || ('\t' <= c <= '\r')              // \t \n \v \f \r
    || ('\U{1C}' <= c <= '\U{1F}')      // file, group, record and unit separators
    || c == '\U{85}' || c == '\U{A0}' || c == '\U{1680}'
    || ('\U{2000}' <= c <= '\U{200A}')
    || c == '\U{2028}' || c == '\U{2029}' || c == '\U{202F}' || c == '\U{205F}' || c == '\U{3000}'
  }

  /** The regex class `\d`, restricted to ASCII digits. */
  predicate IsDigit(c: char)
  {
    '0' <= c <= '9'
  }

  predicate IsLowerAscii(c: char)
  {
    'a' <= c <= 'z'
  }

  /** `c.upper()` on ASCII letters; every other character is left alone. */
  function UpperChar(c: char): (u: char)
    ensures !IsLowerAscii(u)
    ensures !IsLowerAscii(c) ==> u == c
    ensures IsLowerAscii(c) ==> 'A' <= u <= 'Z' && u as int - 'A' as int == c as int - 'a' as int
  {
    if IsLowerAscii(c) then (c as int - 32) as char else c
  }

  /** `s.upper()`: the same string, position by position, with no lower-case letter left. */
  function Upper(s: string): (r: string)
    ensures |r| == |s|
    ensures forall i :: 0 <= i < |s| ==> r[i] == UpperChar(s[i])
    ensures forall i :: 0 <= i < |r| ==> !IsLowerAscii(r[i])
  {
    seq(|s|, i requires 0 <= i < |s| => UpperChar(s[i]))
  }

  lemma UpperIdempotent(s: string)
    ensures Upper(Upper(s)) == Upper(s)
  {
  }

  /** No whitespace at either end. */
  predicate NoEdgeSpace(s: string)
  {
    s == [] || (!IsSpace(s[0]) && !IsSpace(s[|s| - 1]))
  }

  /** No two neighbouring characters are both whitespace. */
  predicate NoAdjacentSpaces(s: string)
  {
    forall i :: 0 < i < |s| && IsSpace(s[i - 1]) ==> !IsSpace(s[i])
  }

  /** The string with every whitespace character taken out: what a
      whitespace-only rewrite must leave unchanged. */
  function NonSpace(s: string): string
  {
    if s == [] then [] else (if IsSpace(s[0]) then [] else [s[0]]) + NonSpace(s[1..])
  }

  lemma {:induction false} NonSpaceAppend(a: string, b: string)
    ensures NonSpace(a + b) == NonSpace(a) + NonSpace(b)
  {
    if a != [] {
      assert (a + b)[0] == a[0];
      assert (a + b)[1..] == a[1..] + b;
      NonSpaceAppend(a[1..], b);
    } else {
      assert a + b == b;
    }
  }

  /** Every character is whitespace. */
  predicate AllSpace(s: string)
  {
    forall k :: 0 <= k < |s| ==> IsSpace(s[k])
  }

  lemma {:induction false} NonSpaceOfSpaces(s: string)
    requires AllSpace(s)
    ensures NonSpace(s) == []
  {
    if s != [] {
      NonSpaceOfSpaces(s[1..]);
    }
  }

  /** `s.lstrip()`: the suffix left once the leading whitespace run is dropped. */
  function TrimStart(s: string): (r: string)
    ensures |r| <= |s| && r == s[|s| - |r|..]
    ensures forall i :: 0 <= i < |s| - |r| ==> IsSpace(s[i])
    ensures r == [] || !IsSpace(r[0])
  {
    if s != [] && IsSpace(s[0]) then TrimStart(s[1..]) else s
  }

  /** `s.rstrip()`: the prefix left once the trailing whitespace run is dropped. */
  function TrimEnd(s: string): (r: string)
    ensures |r| <= |s| && r == s[..|r|]
    ensures forall i :: |r| <= i < |s| ==> IsSpace(s[i])
    ensures r == [] || !IsSpace(r[|r| - 1])
  {
    if s != [] && IsSpace(s[|s| - 1]) then TrimEnd(s[..|s| - 1]) else s
  }

  /** A suffix keeps its characters and its lack of adjacent spaces. */
  lemma SuffixKeeps(s: string, i: nat)
    requires i <= |s|
    ensures forall c :: c in s[i..] ==> c in s
    ensures NoAdjacentSpaces(s) ==> NoAdjacentSpaces(s[i..])
  {
    forall c | c in s[i..] ensures c in s {
      var k :| 0 <= k < |s| - i && s[i..][k] == c;
      assert s[i + k] == c;
    }
  }

  /** A prefix keeps its characters and its lack of adjacent spaces. */
  lemma PrefixKeeps(s: string, j: nat)
    requires j <= |s|
    ensures forall c :: c in s[..j] ==> c in s
    ensures NoAdjacentSpaces(s) ==> NoAdjacentSpaces(s[..j])
  {
    forall c | c in s[..j] ensures c in s {
      var k :| 0 <= k < j && s[..j][k] == c;
      assert s[k] == c;
    }
  }

  /** Trimming the end of a text that starts with no whitespace leaves none at either end. */
  lemma TrimEndEdges(t: string)
    requires t == [] || !IsSpace(t[0])
    ensures NoEdgeSpace(TrimEnd(t))
  {
    var r := TrimEnd(t);
    if r != [] {
      assert r[0] == t[0];
    }
  }

  /** `s.strip()`: whitespace removed at both ends, and nothing else. */
  function Strip(s: string): (r: string)
    ensures NoEdgeSpace(r)
    ensures |r| <= |s|
    ensures forall c :: c in r ==> c in s
    ensures NoAdjacentSpaces(s) ==> NoAdjacentSpaces(r)
  {
    var t := TrimStart(s);
    SuffixKeeps(s, |s| - |t|);
    PrefixKeeps(t, |TrimEnd(t)|);
    TrimEndEdges(t);
    TrimEnd(t)
  }

  /** `lstrip` drops a whitespace prefix. */
  lemma TrimStartSplit(s: string)
    ensures exists pre :: s == pre + TrimStart(s) && AllSpace(pre)
  {
    var r := TrimStart(s);
    var i := |s| - |r|;
    var pre := s[..i];
    assert r == s[i..];
    assert s == pre + s[i..];
    assert AllSpace(pre) by {
      forall k | 0 <= k < |pre| ensures IsSpace(pre[k]) {
        assert pre[k] == s[k];
      }
    }
  }

  /** `rstrip` drops a whitespace suffix. */
  lemma TrimEndSplit(t: string)
    ensures exists post :: t == TrimEnd(t) + post && AllSpace(post)
  {
    var post := t[|TrimEnd(t)|..];
    assert t == TrimEnd(t) + post;
  }

  lemma Regroup(s: string, pre: string, t: string, r: string, post: string)
    requires s == pre + t && t == r + post
    ensures s == pre + r + post
  {
  }

  /** What `strip` returns is the text between a whitespace prefix and a
      whitespace suffix of the input. */
  lemma StripSlice(s: string)
    ensures exists pre, post :: s == pre + Strip(s) + post && AllSpace(pre) && AllSpace(post)
  {
    var t := TrimStart(s);
    TrimStartSplit(s);
    TrimEndSplit(t);
    var pre :| s == pre + t && AllSpace(pre);
    var post :| t == TrimEnd(t) + post && AllSpace(post);
    Regroup(s, pre, t, TrimEnd(t), post);
    assert Strip(s) == TrimEnd(t);
  }

  lemma SplitAt(s: string, k: nat)
    requires k <= |s|
    ensures s == s[..k] + s[k..]
  {
  }

  /** Whitespace in front of a text adds nothing to what is not whitespace. */
  lemma NonSpaceLeading(front: string, t: string)
    requires AllSpace(front)
    ensures NonSpace(front + t) == NonSpace(t)
  {
    NonSpaceAppend(front, t);
    NonSpaceOfSpaces(front);
  }

  /** Whitespace after a text adds nothing to what is not whitespace. */
  lemma NonSpaceTrailing(t: string, back: string)
    requires AllSpace(back)
    ensures NonSpace(t + back) == NonSpace(t)
  {
    NonSpaceAppend(t, back);
    NonSpaceOfSpaces(back);
  }

  lemma TrimStartNonSpace(s: string)
    ensures NonSpace(TrimStart(s)) == NonSpace(s)
  {
    var k := |s| - |TrimStart(s)|;
    SplitAt(s, k);
    NonSpaceLeading(s[..k], s[k..]);
  }

  lemma TrimEndNonSpace(s: string)
    ensures NonSpace(TrimEnd(s)) == NonSpace(s)
  {
    var k := |TrimEnd(s)|;
    SplitAt(s, k);
    NonSpaceTrailing(s[..k], s[k..]);
  }

  /** Stripping removes whitespace only. */
  lemma StripNonSpace(s: string)
    ensures NonSpace(Strip(s)) == NonSpace(s)
  {
    TrimStartNonSpace(s);
    TrimEndNonSpace(TrimStart(s));
  }

  /** `re.sub(r"\s+", " ", s)`: each maximal whitespace run becomes one space. */
  function CollapseSpaces(s: string): string
    decreases |s|
  {
    if s == [] then []
    else
      var space := IsSpace(s[0]);
      var rest := if space then TrimStart(s) else s[1..];
      [if space then ' ' else s[0]] + CollapseSpaces(rest)
  }

  /** Whitespace left after the collapse: plain spaces, never two side by
      side, and one at the start exactly when the input starts with whitespace. */
  lemma {:induction false} CollapseSpacesShape(s: string)
    ensures var r := CollapseSpaces(s);
      && |r| <= |s|
      && (r == []) == (s == [])
      && (r != [] ==> (IsSpace(r[0]) <==> IsSpace(s[0])))
      && NoAdjacentSpaces(r)
      && (forall i :: 0 <= i < |r| && IsSpace(r[i]) ==> r[i] == ' ')
    decreases |s|
  {
    if s != [] {
      var space := IsSpace(s[0]);
      var t := if space then TrimStart(s) else s[1..];
      CollapseSpacesShape(t);
      var r := CollapseSpaces(s);
      var rest := CollapseSpaces(t);
      assert r == [if space then ' ' else s[0]] + rest;
      assert forall i :: 1 <= i < |r| ==> r[i] == rest[i - 1];
      assert space ==> rest == [] || !IsSpace(rest[0]);
    }
  }

  /** The collapse brings in no character but the space. */
  lemma {:induction false} CollapseSpacesChars(s: string)
    ensures forall c :: c in CollapseSpaces(s) ==> c in s || c == ' '
    decreases |s|
  {
    if s != [] {
      var space := IsSpace(s[0]);
      var t := if space then TrimStart(s) else s[1..];
      CollapseSpacesChars(t);
      var r := CollapseSpaces(s);
      assert r == [if space then ' ' else s[0]] + CollapseSpaces(t);
      var k := |s| - |t|;
      forall c | c in t ensures c in s {
        var i :| 0 <= i < |t| && t[i] == c;
        assert s[k + i] == c;
      }
    }
  }

  lemma NonSpaceSingle(c: char)
    ensures NonSpace([c]) == if IsSpace(c) then [] else [c]
  {
    assert [c][1..] == [];
  }

  /** The collapse changes whitespace only. */
  lemma {:induction false} CollapseSpacesNonSpace(s: string)
    ensures NonSpace(CollapseSpaces(s)) == NonSpace(s)
    decreases |s|
  {
    if s == [] {
    } else if IsSpace(s[0]) {
      var t := TrimStart(s);
      CollapseSpacesNonSpace(t);
      CollapseSpaceHead(s);
      TrimStartNonSpace(s);
    } else {
      CollapseSpacesNonSpace(s[1..]);
      CollapseWordHead(s);
    }
  }

  lemma CollapseSpaceHead(s: string)
    requires s != [] && IsSpace(s[0])
    ensures NonSpace(CollapseSpaces(s)) == NonSpace(CollapseSpaces(TrimStart(s)))
  {
    var rest := CollapseSpaces(TrimStart(s));
    assert CollapseSpaces(s) == [' '] + rest;
    NonSpaceLeading([' '], rest);
  }

  lemma CollapseWordHead(s: string)
    requires s != [] && !IsSpace(s[0])
    ensures NonSpace(CollapseSpaces(s)) == [s[0]] + NonSpace(CollapseSpaces(s[1..]))
    ensures NonSpace(s) == [s[0]] + NonSpace(s[1..])
  {
    var rest := CollapseSpaces(s[1..]);
    assert CollapseSpaces(s) == [s[0]] + rest;
    NonSpaceAppend([s[0]], rest);
    NonSpaceSingle(s[0]);
  }

  /** Text without whitespace passes through the collapse unchanged. */
  lemma {:induction false} CollapseWord(a: string, b: string)
    requires forall i :: 0 <= i < |a| ==> !IsSpace(a[i])
    ensures CollapseSpaces(a + b) == a + CollapseSpaces(b)
  {
    if a == [] {
      assert a + b == b;
    } else {
      CollapseStep(a, b);
      CollapseWord(a[1..], b);
      assert a + CollapseSpaces(b) == [a[0]] + (a[1..] + CollapseSpaces(b));
    }
  }

  lemma CollapseStep(a: string, b: string)
    requires a != [] && !IsSpace(a[0])
    ensures CollapseSpaces(a + b) == [a[0]] + CollapseSpaces(a[1..] + b)
  {
    var s := a + b;
    assert s[0] == a[0] && !IsSpace(s[0]);
    assert s[1..] == a[1..] + b;
  }

  /** A whole whitespace run becomes a single space. */
  lemma CollapseRun(run: string, b: string)
    requires run != [] && AllSpace(run)
    requires b == [] || !IsSpace(b[0])
    ensures CollapseSpaces(run + b) == [' '] + CollapseSpaces(b)
  {
    var s := run + b;
    assert s[0] == run[0];
    var t := TrimStart(s);
    assert forall i :: 0 <= i < |run| ==> IsSpace(s[i]);
    assert t != [] ==> t[0] == s[|s| - |t|];
    assert b != [] ==> !IsSpace(s[|run|]);
    assert t == b;
  }

  /** Text without lower-case letters is left as it is by upper-casing. */
  lemma UpperNoLower(s: string)
    requires forall i :: 0 <= i < |s| ==> !IsLowerAscii(s[i])
    ensures Upper(s) == s
  {
  }

  /** Text with no whitespace at either end is left as it is by stripping. */
  lemma StripTrimmed(s: string)
    requires NoEdgeSpace(s)
    ensures Strip(s) == s
  {
  }

  /** A word, a whitespace run and what follows: the run becomes one space. */
  lemma CollapseGap(a: string, run: string, b: string)
    requires forall i :: 0 <= i < |a| ==> !IsSpace(a[i])
    requires run != [] && AllSpace(run)
    requires b == [] || !IsSpace(b[0])
    ensures CollapseSpaces(a + (run + b)) == a + ([' '] + CollapseSpaces(b))
  {
    CollapseWord(a, run + b);
    CollapseRun(run, b);
  }

  /** Two words joined by `&` across whitespace runs: each run becomes one space. */
  lemma CollapseAmpersand(a: string, run: string, b: string)
    requires a != [] && forall i :: 0 <= i < |a| ==> !IsSpace(a[i])
    requires run != [] && AllSpace(run)
    requires b != [] && forall i :: 0 <= i < |b| ==> !IsSpace(b[i])
    ensures CollapseSpaces(a + (run + ("& " + b))) == a + " & " + b
  {
    AmpersandPieces(a, run, b);
    CollapseGap(a, run, "&" + (" " + b));
    CollapseGap("&", " ", b);
    CollapseWord(b, []);
  }

  /** `a & b` with three spaces before the `&`, as left behind where an
      exit number was deleted, collapses to `a & b`. */
  lemma AmpersandCollapse(a: string, b: string)
    requires a != [] && forall i :: 0 <= i < |a| ==> !IsSpace(a[i])
    requires b != [] && forall i :: 0 <= i < |b| ==> !IsSpace(b[i])
    ensures CollapseSpaces(a + ("   & " + b)) == a + " & " + b
  {
    assert "   & " + b == "   " + ("& " + b);
    CollapseAmpersand(a, "   ", b);
  }

  lemma AmpersandTrimmed(a: string, b: string)
    requires a != [] && forall i :: 0 <= i < |a| ==> !IsSpace(a[i])
    requires b != [] && forall i :: 0 <= i < |b| ==> !IsSpace(b[i])
    ensures NoEdgeSpace(a + " & " + b)
  {
  }

  lemma AmpersandPieces(a: string, run: string, b: string)
    ensures a + (run + ("& " + b)) == a + (run + ("&" + (" " + b)))
    ensures a + ([' '] + ("&" + ([' '] + b))) == a + " & " + b
    ensures b + [] == b
  {
  }

  /** `re.sub(r"\s+", " ", s).strip()`: whitespace runs made single spaces,
      none left at the ends. */
  function Squeeze(s: string): (r: string)
    ensures NoEdgeSpace(r) && NoAdjacentSpaces(r)
    ensures forall i :: 0 <= i < |r| && IsSpace(r[i]) ==> r[i] == ' '
    ensures |r| <= |s|
    ensures forall c :: c in r ==> c in s || c == ' '
  {
    var collapsed := CollapseSpaces(s);
    CollapseSpacesShape(s);
    CollapseSpacesChars(s);
    var r := Strip(collapsed);
    SqueezeSpaces(collapsed, r);
    r
  }

  lemma SqueezeSpaces(collapsed: string, r: string)
    requires forall i :: 0 <= i < |collapsed| && IsSpace(collapsed[i]) ==> collapsed[i] == ' '
    requires forall c :: c in r ==> c in collapsed
    ensures forall i :: 0 <= i < |r| && IsSpace(r[i]) ==> r[i] == ' '
  {
    forall i | 0 <= i < |r| && IsSpace(r[i]) ensures r[i] == ' ' {
      assert r[i] in collapsed;
      var j :| 0 <= j < |collapsed| && collapsed[j] == r[i];
    }
  }

  /** Squeezing changes whitespace only. */
  lemma SqueezeNonSpace(s: string)
    ensures NonSpace(Squeeze(s)) == NonSpace(s)
  {
    CollapseSpacesNonSpace(s);
    StripNonSpace(CollapseSpaces(s));
  }

  /** A collapse that leaves no whitespace at the ends is the whole squeeze. */
  lemma SqueezeCollapsed(s: string, r: string)
    requires CollapseSpaces(s) == r && NoEdgeSpace(r)
    ensures Squeeze(s) == r
  {
    StripTrimmed(r);
  }
}
