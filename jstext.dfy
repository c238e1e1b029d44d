/**
 * The JavaScript string built-ins that the scraper and the web app rely on:
 * the `\s` character class, `String.prototype.trim`, deleting every
 * whitespace run (`replace(/\s+/g, "")`), `startsWith` and `includes`.
 */
module JsText {

  /**
   * JavaScript's `\s`: the WhiteSpace and LineTerminator code points. The
   * class already contains the ideographic space U+3000, so the sources'
   * `[\s　]` is this same set, and `trim` strips exactly this set too.
   */
  predicate IsSpace(c: char) {
    c == ' ' || c == '\t' || c == '\n' || c == '\r' || c == '\U{000B}' || c == '\U{000C}'
    || c == '\U{00A0}' || c == '\U{1680}' || ('\U{2000}' <= c <= '\U{200A}')
    || c == '\U{2028}' || c == '\U{2029}' || c == '\U{202F}' || c == '\U{205F}'
    || c == '\U{3000}' || c == '\U{FEFF}'
  }

  predicate NoSpace(s: string) {
    forall k :: 0 <= k < |s| ==> !IsSpace(s[k])
  }

  predicate AllSpace(s: string) {
    forall k :: 0 <= k < |s| ==> IsSpace(s[k])
  }

  /** Every character of `s[i..j]` is whitespace. */
  predicate SpacesIn(s: string, i: nat, j: nat)
    requires i <= j <= |s|
  {
    forall k :: i <= k < j ==> IsSpace(s[k])
  }

  lemma SpacesInSlice(s: string, i: nat, j: nat)
    requires i <= j <= |s|
    ensures SpacesIn(s, i, j) <==> AllSpace(s[i..j])
  {
    assert forall k :: i <= k < j ==> s[k] == s[i..j][k - i];
  }

  /** The end of the whitespace run that starts at `i` (a greedy `\s*`). */
  function SpanSpaces(s: string, i: nat): (j: nat)
    requires i <= |s|
    ensures i <= j <= |s|
    ensures SpacesIn(s, i, j)
    ensures j < |s| ==> !IsSpace(s[j])
    decreases |s| - i
  {
    if i < |s| && IsSpace(s[i]) then SpanSpaces(s, i + 1) else i
  }

  /** The start of the whitespace run that ends at `j`, scanning backwards. */
  function BackSpanSpaces(s: string, j: nat): (i: nat)
    requires j <= |s|
    ensures i <= j
    ensures SpacesIn(s, i, j)
    ensures 0 < i ==> !IsSpace(s[i - 1])
  {
    if 0 < j && IsSpace(s[j - 1]) then BackSpanSpaces(s, j - 1) else j
  }

  /** `r` is `s` with some whitespace removed from its two ends and nothing else changed. */
  predicate EndsStripped(s: string, r: string) {
    exists i, j :: 0 <= i <= j <= |s| && r == s[i..j] && AllSpace(s[..i]) && AllSpace(s[j..])
  }

  /** `String.prototype.trim`. */
  function Trim(s: string): (r: string)
    ensures |r| <= |s|
    ensures r == [] <==> AllSpace(s)
    ensures r != [] ==> !IsSpace(r[0]) && !IsSpace(r[|r| - 1])
    ensures NoSpace(s) ==> r == s
  {
    var i := SpanSpaces(s, 0);
    if i == |s| then
      []
    else
      var j := BackSpanSpaces(s, |s|);
      assert i < j;
      assert NoSpace(s) ==> i == 0 && j == |s|;
      s[i..j]
  }

  /** Trimming only removes whitespace from the two ends; the inside is kept as it is. */
  lemma TrimStripsEnds(s: string)
    ensures EndsStripped(s, Trim(s))
  {
    var i := SpanSpaces(s, 0);
    if i == |s| {
      assert s[..0] == [] && s[0..] == s && s[0..0] == [];
      SpacesInSlice(s, 0, |s|);
      assert s[0..|s|] == s;
    } else {
      var j := BackSpanSpaces(s, |s|);
      SpacesInSlice(s, 0, i);
      SpacesInSlice(s, j, |s|);
      assert s[0..i] == s[..i] && s[j..|s|] == s[j..];
      assert Trim(s) == s[i..j];
    }
  }

  /** Text that neither starts nor ends with whitespace is its own trim. */
  lemma TrimOfTrimmed(s: string)
    requires s != [] && !IsSpace(s[0]) && !IsSpace(s[|s| - 1])
    ensures Trim(s) == s
  {
    assert SpanSpaces(s, 0) == 0;
    assert BackSpanSpaces(s, |s|) == |s|;
  }

  /** A whitespace prefix followed by a non-whitespace character is the leading run. */
  lemma SpanSpacesAt(s: string, i: nat)
    requires i < |s| && AllSpace(s[..i]) && !IsSpace(s[i])
    ensures SpanSpaces(s, 0) == i
  {
  }

  /** A whitespace suffix preceded by a non-whitespace character is the trailing run. */
  lemma BackSpanSpacesAt(s: string, j: nat)
    requires 0 < j <= |s| && AllSpace(s[j..]) && !IsSpace(s[j - 1])
    ensures BackSpanSpaces(s, |s|) == j
  {
  }

  /** Whitespace on both sides of a split point is whitespace throughout. */
  lemma AllSpaceAround(s: string, i: nat)
    requires i <= |s| && AllSpace(s[..i]) && AllSpace(s[i..])
    ensures AllSpace(s)
  {
    forall k | 0 <= k < |s| ensures IsSpace(s[k]) {
      if k < i { assert s[..i][k] == s[k]; } else { assert s[i..][k - i] == s[k]; }
    }
  }

  /**
   * What `Trim` promises determines it: a slice `s[i..j]` with only
   * whitespace before and after it, which is empty or neither starts nor
   * ends with whitespace, is `Trim(s)`.
   */
  lemma TrimUnique(s: string, i: nat, j: nat)
    requires i <= j <= |s| && AllSpace(s[..i]) && AllSpace(s[j..])
    requires i == j || (!IsSpace(s[i]) && !IsSpace(s[j - 1]))
    ensures Trim(s) == s[i..j]
  {
    if i == j {
      AllSpaceAround(s, i);
    } else {
      SpanSpacesAt(s, i);
      BackSpanSpacesAt(s, j);
    }
  }

  /** `s.replace(/\s+/g, "")`: every whitespace character deleted, the rest kept in order. */
  function RemoveSpaces(s: string): (r: string)
    ensures NoSpace(r)
    ensures |r| <= |s|
  {
    if s == [] then []
    else (if IsSpace(s[0]) then [] else [s[0]]) + RemoveSpaces(s[1..])
  }

  /** Deleting whitespace distributes over concatenation. */
  lemma {:induction false} RemoveSpacesAppend(a: string, b: string)
    ensures RemoveSpaces(a + b) == RemoveSpaces(a) + RemoveSpaces(b)
  {
    if a != [] {
      assert (a + b)[1..] == a[1..] + b;
      RemoveSpacesAppend(a[1..], b);
    } else {
      assert a + b == b;
    }
  }

  /** Text without whitespace passes through unchanged. */
  lemma {:induction false} RemoveSpacesOfNoSpace(s: string)
    requires NoSpace(s)
    ensures RemoveSpaces(s) == s
  {
    if s != [] {
      RemoveSpacesOfNoSpace(s[1..]);
    }
  }

  /** Text made only of whitespace disappears. */
  lemma {:induction false} RemoveSpacesOfAllSpace(s: string)
    requires AllSpace(s)
    ensures RemoveSpaces(s) == []
  {
    if s != [] {
      RemoveSpacesOfAllSpace(s[1..]);
    }
  }

  /** Only text made of whitespace disappears. */
  lemma {:induction false} RemoveSpacesEmpty(s: string)
    requires RemoveSpaces(s) == []
    ensures AllSpace(s)
  {
    if s != [] {
      RemoveSpacesEmpty(s[1..]);
      assert forall k :: 1 <= k < |s| ==> s[k] == s[1..][k - 1];
    }
  }

  /** Deleting whitespace is idempotent. */
  lemma RemoveSpacesIdempotent(s: string)
    ensures RemoveSpaces(RemoveSpaces(s)) == RemoveSpaces(s)
  {
    RemoveSpacesOfNoSpace(RemoveSpaces(s));
  }

  /** Trimming only ever removes whitespace. */
  lemma RemoveSpacesOfTrim(s: string)
    ensures RemoveSpaces(Trim(s)) == RemoveSpaces(s)
  {
    var i := SpanSpaces(s, 0);
    if i == |s| {
      RemoveSpacesOfAllSpace(s);
    } else {
      var j := BackSpanSpaces(s, |s|);
      assert i < j;
      SpacesInSlice(s, 0, i);
      SpacesInSlice(s, j, |s|);
      assert s == s[0..i] + s[i..j] + s[j..|s|];
      RemoveSpacesAppend(s[0..i] + s[i..j], s[j..|s|]);
      RemoveSpacesAppend(s[0..i], s[i..j]);
      RemoveSpacesOfAllSpace(s[0..i]);
      RemoveSpacesOfAllSpace(s[j..|s|]);
    }
  }

  /** `s.startsWith(p)`. */
  predicate StartsWith(s: string, p: string) {
    |p| <= |s| && s[..|p|] == p
  }

  /** `hay.includes(q)`: `q` occurs in `hay` at some position. */
  predicate Contains(hay: string, q: string) {
    exists i :: 0 <= i <= |hay| && StartsWith(hay[i..], q)
  }
}
