/**
 * The placeholder pattern `\{\{\s*(v\d+)\s*\}\}` (case-insensitive) and
 * `findall` over it, written as a hand-made scanner: `MatchAt` tries the
 * pattern at one position, `FindAll` collects the captured group of each
 * non-overlapping match from left to right.
 */
module TagScanner {
  import opened Wrappers
  import opened Text

  /** A whole placeholder, built from its leading whitespace, captured group and trailing whitespace. */
  function Tag(ws1: string, cap: string, ws2: string): string
  {
    "{{" + ws1 + cap + ws2 + "}}"
  }

  predicate WellFormedTag(ws1: string, cap: string, ws2: string)
  {
    AllSpaces(ws1) && IsVKey(cap) && AllSpaces(ws2)
  }

  /**
   * The pattern tried at position `i`: the captured group and the index just
   * past the closing braces, or `None`. Each part of the pattern can match in
   * one way only (whitespace, letters, digits and braces are disjoint), so no
   * backtracking is needed.
   */
  function MatchAt(s: string, i: nat): Option<(string, nat)>
    requires i <= |s|
  {
    if i + 2 <= |s| && s[i] == '{' && s[i + 1] == '{' then
      var j := SkipSpaces(s, i + 2);
      if j < |s| && (s[j] == 'v' || s[j] == 'V') then
        var k := SkipDigits(s, j + 1);
        if k > j + 1 then
          var l := SkipSpaces(s, k);
          if l + 2 <= |s| && s[l] == '}' && s[l + 1] == '}' then Some((s[j..k], l + 2))
          else None
        else None
      else None
    else None
  }

  /** `findall` from position `i`: scan on after each match, or one character on after a miss. */
  function FindAll(s: string, i: nat): seq<string>
    requires i <= |s|
    decreases |s| - i
  {
    if i == |s| then []
    else
      match MatchAt(s, i)
      case Some((cap, e)) => if i < e <= |s| then [cap] + FindAll(s, e) else []
      case None => FindAll(s, i + 1)
  }

  /** `var_pattern.findall(text)`. */
  function Captures(text: string): seq<string>
  {
    FindAll(text, 0)
  }

  /** A well-formed-or-not placeholder `Tag(ws1, cap, ws2)` occurs in `s` starting at `p`. */
  predicate TagAt(s: string, p: nat, ws1: string, cap: string, ws2: string)
  {
    p + |Tag(ws1, cap, ws2)| <= |s| && s[p..p + |Tag(ws1, cap, ws2)|] == Tag(ws1, cap, ws2)
  }

  /** A slice is the concatenation of its two halves at any cut. */
  lemma SliceCut(s: string, a: nat, b: nat, c: nat)
    requires a <= b <= c <= |s|
    ensures s[a..c] == s[a..b] + s[b..c]
  {
  }

  /** A slice equal to `x + y` splits into `x` and `y` at `|x|`. */
  lemma SlicePeel(s: string, a: nat, b: nat, c: nat, x: string, y: string)
    requires a <= b <= c <= |s| && |x| == b - a
    requires s[a..c] == x + y
    ensures s[a..b] == x && s[b..c] == y
  {
    assert s[a..b] == s[a..c][..b - a];
    assert s[b..c] == s[a..c][b - a..];
  }

  /** Two braces, then three consecutive slices, then two braces, read as one placeholder. */
  lemma TagSlices(s: string, i: nat, j: nat, k: nat, l: nat)
    requires i + 2 <= j <= k <= l && l + 2 <= |s|
    requires s[i] == '{' && s[i + 1] == '{' && s[l] == '}' && s[l + 1] == '}'
    ensures s[i..l + 2] == Tag(s[i + 2..j], s[j..k], s[k..l])
  {
    assert s[i..i + 2] == "{{";
    assert s[l..l + 2] == "}}";
    SliceCut(s, i, i + 2, j);
    SliceCut(s, i, j, k);
    SliceCut(s, i, k, l);
    SliceCut(s, i, l, l + 2);
  }

  /** What a successful `MatchAt` has seen: the scan positions and the characters at them. */
  lemma MatchAtScans(s: string, i: nat)
    requires i <= |s| && MatchAt(s, i).Some?
    ensures i + 2 <= |s| && s[i] == '{' && s[i + 1] == '{'
    ensures var j := SkipSpaces(s, i + 2);
            j < |s| && (s[j] == 'v' || s[j] == 'V')
    ensures var j := SkipSpaces(s, i + 2);
            var k := SkipDigits(s, j + 1);
            var l := SkipSpaces(s, k);
            && k > j + 1 && l + 2 <= |s| && s[l] == '}' && s[l + 1] == '}'
            && MatchAt(s, i).value == (s[j..k], l + 2)
  {
  }

  /** What `MatchAt` accepts is a well-formed placeholder, and the capture is its group. */
  lemma MatchAtSound(s: string, i: nat)
    requires i <= |s| && MatchAt(s, i).Some?
    ensures var (cap, e) := MatchAt(s, i).value;
            exists ws1, ws2 :: WellFormedTag(ws1, cap, ws2) && e == i + |Tag(ws1, cap, ws2)|
                               && TagAt(s, i, ws1, cap, ws2)
  {
    MatchAtScans(s, i);
    var j := SkipSpaces(s, i + 2);
    var k := SkipDigits(s, j + 1);
    var l := SkipSpaces(s, k);
    ScansFormTag(s, i, j, k, l);
  }

  /** Scans that succeed lay out a well-formed placeholder from `i` to `l + 2`. */
  lemma ScansFormTag(s: string, i: nat, j: nat, k: nat, l: nat)
    requires i + 2 <= j && j + 1 <= |s| && s[i] == '{' && s[i + 1] == '{'
    requires j == SkipSpaces(s, i + 2) && k == SkipDigits(s, j + 1) && l == SkipSpaces(s, k)
    requires k > j + 1 && (s[j] == 'v' || s[j] == 'V')
    requires l + 2 <= |s| && s[l] == '}' && s[l + 1] == '}'
    ensures var ws1, cap, ws2 := s[i + 2..j], s[j..k], s[k..l];
            WellFormedTag(ws1, cap, ws2) && l + 2 == i + |Tag(ws1, cap, ws2)| && TagAt(s, i, ws1, cap, ws2)
  {
    SkipSpacesSpan(s, i + 2);
    SkipSpacesSpan(s, k);
    var cap := s[j..k];
    assert cap[1..] == s[j + 1..k];
    assert IsVKey(cap);
    TagSlices(s, i, j, k, l);
  }

  /** The pieces of a placeholder occurrence, position by position. */
  lemma TagParts(s: string, i: nat, ws1: string, cap: string, ws2: string)
    requires TagAt(s, i, ws1, cap, ws2)
    ensures var j := i + 2 + |ws1|;
            var k := j + |cap|;
            var l := k + |ws2|;
            && l + 2 <= |s|
            && s[i] == '{' && s[i + 1] == '{'
            && s[i + 2..j] == ws1 && s[j..k] == cap && s[k..l] == ws2
            && s[l] == '}' && s[l + 1] == '}'
  {
    var j := i + 2 + |ws1|;
    var k := j + |cap|;
    var l := k + |ws2|;
    SlicePeel(s, i, l, l + 2, "{{" + ws1 + cap + ws2, "}}");
    SlicePeel(s, i, k, l, "{{" + ws1 + cap, ws2);
    SlicePeel(s, i, j, k, "{{" + ws1, cap);
    SlicePeel(s, i, i + 2, j, "{{", ws1);
    assert s[i] == s[i..i + 2][0] && s[i + 1] == s[i..i + 2][1];
    assert s[l] == s[l..l + 2][0] && s[l + 1] == s[l..l + 2][1];
  }

  /** Every well-formed placeholder that starts at `i` is matched there, in full. */
  lemma MatchAtComplete(s: string, i: nat, ws1: string, cap: string, ws2: string)
    requires WellFormedTag(ws1, cap, ws2) && TagAt(s, i, ws1, cap, ws2)
    ensures MatchAt(s, i) == Some((cap, i + |Tag(ws1, cap, ws2)|))
  {
    var j := i + 2 + |ws1|;
    var k := j + |cap|;
    var l := k + |ws2|;
    TagParts(s, i, ws1, cap, ws2);
    assert s[j] == cap[0];
    SkipSpacesOver(s, i + 2, j);
    assert s[j + 1..k] == cap[1..];
    assert k == |s| || !IsDigit(s[k]) by {
      if |ws2| > 0 { assert s[k] == ws2[0]; }
    }
    SkipDigitsOver(s, j + 1, k);
    SkipSpacesOver(s, k, l);
    MatchAtPieces(s, i, j, k, l);
  }

  /** `MatchAt` follows the three scans: braces, spaces to `j`, `v` and digits to `k`, spaces to `l`, braces. */
  lemma MatchAtPieces(s: string, i: nat, j: nat, k: nat, l: nat)
    requires i + 2 <= |s| && s[i] == '{' && s[i + 1] == '{'
    requires SkipSpaces(s, i + 2) == j && j < |s| && (s[j] == 'v' || s[j] == 'V')
    requires SkipDigits(s, j + 1) == k && k > j + 1
    requires SkipSpaces(s, k) == l && l + 2 <= |s| && s[l] == '}' && s[l + 1] == '}'
    ensures MatchAt(s, i) == Some((s[j..k], l + 2))
  {
  }

  /** Every capture `findall` returns is `v`/`V` followed by digits. */
  lemma {:induction false} FindAllShape(s: string, i: nat)
    requires i <= |s|
    ensures forall c :: c in FindAll(s, i) ==> IsVKey(c)
    decreases |s| - i
  {
    if i < |s| {
      match MatchAt(s, i)
      case Some((cap, e)) =>
        if i < e <= |s| {
          MatchAtSound(s, i);
          FindAllShape(s, e);
        }
      case None => FindAllShape(s, i + 1);
    }
  }

  /** Every capture returned by `var_pattern.findall` has the `v<digits>` shape. */
  lemma CapturesShape(text: string)
    ensures forall c :: c in Captures(text) ==> IsVKey(c)
  {
    FindAllShape(text, 0);
  }

  /** `findall` finds nothing exactly when the pattern matches at no position. */
  lemma {:induction false} FindAllEmptyIff(s: string, i: nat)
    requires i <= |s|
    ensures FindAll(s, i) == [] <==> forall p :: i <= p < |s| ==> MatchAt(s, p).None?
    decreases |s| - i
  {
    if i < |s| {
      FindAllEmptyIff(s, i + 1);
      match MatchAt(s, i)
      case Some((cap, e)) =>
        MatchAtSound(s, i);
      case None =>
    }
  }

  /** Text in which no well-formed placeholder occurs yields no capture. */
  lemma NoTagNoCapture(text: string)
    requires forall p: nat, ws1, cap, ws2 :: WellFormedTag(ws1, cap, ws2) ==> !TagAt(text, p, ws1, cap, ws2)
    ensures Captures(text) == []
  {
    forall p | 0 <= p < |text| ensures MatchAt(text, p).None? {
      if MatchAt(text, p).Some? {
        MatchAtSound(text, p);
      }
    }
    FindAllEmptyIff(text, 0);
  }

  /**
   * Left to right and non-overlapping: the first capture from `i` is the group
   * of the leftmost placeholder at or after `i`, and the scan resumes just
   * after that placeholder's closing braces.
   */
  lemma {:induction false} FindAllLeftmost(s: string, i: nat, p: nat, ws1: string, cap: string, ws2: string)
    requires i <= p && WellFormedTag(ws1, cap, ws2)
    requires TagAt(s, p, ws1, cap, ws2)
    requires forall q :: i <= q < p ==> MatchAt(s, q).None?
    ensures FindAll(s, i) == [cap] + FindAll(s, p + |Tag(ws1, cap, ws2)|)
    decreases p - i
  {
    var e := p + |Tag(ws1, cap, ws2)|;
    assert p < e <= |s|;
    if i < p {
      assert MatchAt(s, i).None?;
      assert FindAll(s, i) == FindAll(s, i + 1);
      FindAllLeftmost(s, i + 1, p, ws1, cap, ws2);
    } else {
      MatchAtComplete(s, p, ws1, cap, ws2);
      assert FindAll(s, p) == [cap] + FindAll(s, e);
    }
  }

  /** A text that is exactly one placeholder captures exactly its group. */
  lemma SingleTag(ws1: string, cap: string, ws2: string)
    requires WellFormedTag(ws1, cap, ws2)
    ensures Captures(Tag(ws1, cap, ws2)) == [cap]
  {
    var t := Tag(ws1, cap, ws2);
    assert t[0..|t|] == t;
    assert TagAt(t, 0, ws1, cap, ws2);
    FindAllLeftmost(t, 0, 0, ws1, cap, ws2);
  }
}
