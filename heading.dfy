/**
 * The heading of one catalogue entry: its numeric id, the numbering prefix
 * that is stripped from it, and the normalisation of what remains into the
 * entry's name (scripts/scrape.ts, `normalizeName` and the first half of
 * `parseYokaiFromSection`).
 */
module Heading {
  import opened JsText

  /** The id of an entry whose heading does not start with a digit. */
  const NoId: int := -1

  /**
   * `normalizeName`: NFKC (supplied by the caller, since Unicode
   * normalisation is not modelled), then every whitespace run deleted, then
   * `trim`. The trim never has anything left to do.
   */
  function NormalizeName(nfkc: string -> string, raw: string): (name: string)
    ensures NoSpace(name)
    ensures name == RemoveSpaces(nfkc(raw))
  {
    Trim(RemoveSpaces(nfkc(raw)))
  }

  /** Normalising a name a second time changes nothing when NFKC leaves the normalised name unchanged. */
  lemma NormalizeNameIdempotent(nfkc: string -> string, raw: string)
    requires nfkc(NormalizeName(nfkc, raw)) == NormalizeName(nfkc, raw)
    ensures NormalizeName(nfkc, NormalizeName(nfkc, raw)) == NormalizeName(nfkc, raw)
  {
    RemoveSpacesIdempotent(nfkc(raw));
  }

  predicate IsAsciiDigit(c: char) {
    '0' <= c <= '9'
  }

  predicate IsWideDigit(c: char) {
    '０' <= c <= '９'
  }

  /** The class `[0-9０-９]` of the strip pattern. */
  predicate IsHeadingDigit(c: char) {
    IsAsciiDigit(c) || IsWideDigit(c)
  }

  /** The class `[\.:：:．、・]` of the strip pattern. */
  predicate IsGroupSeparator(c: char) {
    c == '.' || c == ':' || c == '：' || c == '．' || c == '、' || c == '・'
  }

  predicate AllAsciiDigits(s: string) {
    forall k :: 0 <= k < |s| ==> IsAsciiDigit(s[k])
  }

  predicate StartsWithAsciiDigit(s: string) {
    s != [] && IsAsciiDigit(s[0])
  }

  predicate StartsWithDigit(s: string) {
    s != [] && IsHeadingDigit(s[0])
  }

  predicate StartsWithSpace(s: string) {
    s != [] && IsSpace(s[0])
  }

  /** The end of the run of `\d` (ASCII digits) that starts at `i`. */
  function SpanAsciiDigits(s: string, i: nat): (j: nat)
    requires i <= |s|
    ensures i <= j <= |s|
    ensures AllAsciiDigits(s[i..j])
    ensures j < |s| ==> !IsAsciiDigit(s[j])
    decreases |s| - i
  {
    if i < |s| && IsAsciiDigit(s[i]) then
      var j := SpanAsciiDigits(s, i + 1);
      assert forall k :: 0 <= k < j - i ==> s[i..j][k] == (if k == 0 then s[i] else s[i + 1..j][k - 1]);
      j
    else
      i
  }

  function DigitValue(c: char): nat
    requires IsAsciiDigit(c)
  {
    c as int - '0' as int
  }

  function DigitChar(d: nat): (c: char)
    requires d < 10
    ensures IsAsciiDigit(c) && DigitValue(c) == d
  {
    ('0' as int + d) as char
  }

  /** `parseInt(ds, 10)` of a string of decimal digits (as an unbounded integer). */
  function DecimalValue(ds: string): nat
    requires AllAsciiDigits(ds)
  {
    if ds == [] then 0 else 10 * DecimalValue(ds[..|ds| - 1]) + DigitValue(ds[|ds| - 1])
  }

  /** The decimal numeral of `n`, without leading zeros. */
  function Decimal(n: nat): (ds: string)
    ensures ds != [] && AllAsciiDigits(ds)
    ensures n > 0 ==> ds[0] != '0'
  {
    if n < 10 then [DigitChar(n)] else Decimal(n / 10) + [DigitChar(n % 10)]
  }

  /** Reading back a numeral gives the number it was written from. */
  lemma {:induction false} DecimalRoundTrip(n: nat)
    ensures DecimalValue(Decimal(n)) == n
  {
    if n >= 10 {
      var ds := Decimal(n);
      assert ds[..|ds| - 1] == Decimal(n / 10);
      DecimalRoundTrip(n / 10);
    }
  }

  /**
   * `id`: the value of the leading `\d+` of the NFKC-normalised, trimmed
   * heading, or the sentinel -1 when it does not start with an ASCII digit.
   */
  function HeadingId(normalized: string): (id: int)
    ensures NoId <= id
    ensures id == NoId <==> !StartsWithAsciiDigit(normalized)
    ensures id != NoId ==> exists n :: 0 < n <= |normalized| && AllAsciiDigits(normalized[..n])
                                       && (n == |normalized| || !IsAsciiDigit(normalized[n]))
                                       && id == DecimalValue(normalized[..n])
  {
    var n := SpanAsciiDigits(normalized, 0);
    assert normalized[0..n] == normalized[..n];
    if n == 0 then NoId else DecimalValue(normalized[..n])
  }

  /** A heading that starts with the numeral of `n` gets id `n`. */
  lemma HeadingIdOfNumeral(n: nat, rest: string)
    requires !StartsWithAsciiDigit(rest)
    ensures HeadingId(Decimal(n) + rest) == n
  {
    var ds := Decimal(n);
    var s := ds + rest;
    var m := SpanAsciiDigits(s, 0);
    SpanAsciiDigitsOfPrefix(s, |ds|);
    assert s[..|ds|] == ds;
    DecimalRoundTrip(n);
  }

  lemma SpanAsciiDigitsOfPrefix(s: string, n: nat)
    requires 0 < n <= |s| && AllAsciiDigits(s[..n]) && (n == |s| || !IsAsciiDigit(s[n]))
    ensures SpanAsciiDigits(s, 0) == n
  {
    var m := SpanAsciiDigits(s, 0);
    assert forall k :: 0 <= k < n ==> IsAsciiDigit(s[k]) by {
      forall k | 0 <= k < n ensures IsAsciiDigit(s[k]) { assert s[..n][k] == s[k]; }
    }
    assert forall k :: 0 <= k < m ==> IsAsciiDigit(s[k]) by {
      forall k | 0 <= k < m ensures IsAsciiDigit(s[k]) { assert s[0..m][k] == s[k]; }
    }
  }

  predicate HeadingDigitsIn(s: string, i: nat, j: nat)
    requires i <= j <= |s|
  {
    forall k :: i <= k < j ==> IsHeadingDigit(s[k])
  }

  /** The end of the run of `[0-9０-９]` that starts at `i`. */
  function SpanHeadingDigits(s: string, i: nat): (j: nat)
    requires i <= |s|
    ensures i <= j <= |s|
    ensures HeadingDigitsIn(s, i, j)
    ensures j < |s| ==> !IsHeadingDigit(s[j])
    decreases |s| - i
  {
    if i < |s| && IsHeadingDigit(s[i]) then SpanHeadingDigits(s, i + 1) else i
  }

  predicate DigitAt(s: string, i: nat) {
    i < |s| && IsHeadingDigit(s[i])
  }

  predicate SeparatorAt(s: string, i: nat) {
    i < |s| && IsGroupSeparator(s[i])
  }

  predicate SpaceAt(s: string, i: nat) {
    i < |s| && IsSpace(s[i])
  }

  /**
   * Where one repetition of the numbering group
   * `[0-9０-９]+\s*[\.:：:．、・]?\s*` that starts at some index `i` ends
   * each of its parts: the digits, the whitespace after them, the optional
   * separator, and the whitespace after that.
   */
  datatype Cut = Cut(digitsEnd: nat, spaceEnd: nat, sepEnd: nat, end: nat)

  /** `s[i..c.end]` is one number group, split as `c` says. */
  predicate GroupAt(s: string, i: nat, c: Cut) {
    && i < c.digitsEnd <= c.spaceEnd <= c.sepEnd <= c.end <= |s|
    && c.sepEnd <= c.spaceEnd + 1
    && HeadingDigitsIn(s, i, c.digitsEnd)
    && SpacesIn(s, c.digitsEnd, c.spaceEnd)
    && (c.spaceEnd < c.sepEnd ==> IsGroupSeparator(s[c.spaceEnd]))
    && SpacesIn(s, c.sepEnd, c.end)
  }

  /**
   * Every part of the group is as long as it can be: each quantifier is
   * greedy and nothing after the pattern can force a shorter choice.
   */
  predicate Greedy(s: string, c: Cut)
    requires c.end <= |s|
  {
    && !DigitAt(s, c.digitsEnd)
    && !SpaceAt(s, c.spaceEnd)
    && (c.sepEnd == c.spaceEnd ==> !SeparatorAt(s, c.spaceEnd))
    && !SpaceAt(s, c.end)
  }

  /** The number group that the pattern matches at `i`. */
  function ParseGroup(s: string, i: nat): (c: Cut)
    requires DigitAt(s, i)
    ensures GroupAt(s, i, c) && Greedy(s, c)
  {
    var d := SpanHeadingDigits(s, i);
    var b := SpanSpaces(s, d);
    var p := if SeparatorAt(s, b) then b + 1 else b;
    Cut(d, b, p, SpanSpaces(s, p))
  }

  lemma {:induction false} SpanHeadingDigitsUnique(s: string, i: nat, j: nat)
    requires i <= j <= |s| && HeadingDigitsIn(s, i, j) && !DigitAt(s, j)
    ensures SpanHeadingDigits(s, i) == j
    decreases j - i
  {
    if i < j {
      SpanHeadingDigitsUnique(s, i + 1, j);
    }
  }

  lemma {:induction false} SpanSpacesUnique(s: string, i: nat, j: nat)
    requires i <= j <= |s| && SpacesIn(s, i, j) && !SpaceAt(s, j)
    ensures SpanSpaces(s, i) == j
    decreases j - i
  {
    if i < j {
      SpanSpacesUnique(s, i + 1, j);
    }
  }

  /** A greedy split of a number group is the one the parser finds: there is only one. */
  lemma ParseGroupUnique(s: string, i: nat, c: Cut)
    requires GroupAt(s, i, c) && Greedy(s, c)
    ensures DigitAt(s, i) && ParseGroup(s, i) == c
  {
    SpanHeadingDigitsUnique(s, i, c.digitsEnd);
    SpanSpacesUnique(s, c.digitsEnd, c.spaceEnd);
    SpanSpacesUnique(s, c.sepEnd, c.end);
  }

  /** Where a run of back-to-back groups starting at `i` ends. */
  function GroupsEnd(i: nat, cs: seq<Cut>): nat {
    if cs == [] then i else cs[|cs| - 1].end
  }

  /** `cs` splits a run of back-to-back greedy number groups starting at `i`. */
  predicate GroupsAt(s: string, i: nat, cs: seq<Cut>)
    decreases |cs|
  {
    cs == [] || (GroupAt(s, i, cs[0]) && Greedy(s, cs[0]) && GroupsAt(s, cs[0].end, cs[1..]))
  }

  /**
   * `(?:group){1,budget}` at `i`, greedy: groups are taken while a digit
   * follows and the budget lasts.
   */
  function StripGroups(s: string, i: nat, budget: nat): (cs: seq<Cut>)
    requires i <= |s|
    ensures |cs| <= budget
    ensures cs == [] <==> budget == 0 || !DigitAt(s, i)
    ensures GroupsAt(s, i, cs)
    ensures i <= GroupsEnd(i, cs) <= |s|
    ensures |cs| < budget ==> !DigitAt(s, GroupsEnd(i, cs))
    decreases budget
  {
    if budget == 0 || !DigitAt(s, i) then []
    else
      var c := ParseGroup(s, i);
      var rest := StripGroups(s, c.end, budget - 1);
      assert ([c] + rest)[1..] == rest;
      [c] + rest
  }

  /** The number groups that the numbering pattern removes from a heading. */
  function HeadingGroups(title: string): seq<Cut> {
    StripGroups(title, SpanSpaces(title, 0), 3)
  }

  /**
   * The length of the prefix that
   * `replace(/^\s*(?:[0-9０-９]+\s*[\.:：:．、・]?\s*){1,3}/, "")` removes:
   * the leading whitespace and up to three groups, or nothing when no digit
   * follows the leading whitespace (the pattern does not match).
   */
  function StripEnd(title: string): nat {
    var gs := HeadingGroups(title);
    if gs == [] then 0 else GroupsEnd(SpanSpaces(title, 0), gs)
  }

  /** The heading with its numbering removed. */
  function StripHeading(title: string): string {
    title[StripEnd(title)..]
  }

  /**
   * What the strip removes: leading whitespace followed by one to three
   * greedy number groups. With no digit after the leading whitespace the
   * pattern does not match and the heading passes through unchanged. What
   * remains never starts with whitespace, and starts with a digit only when
   * all three groups were taken.
   */
  lemma StripHeadingRemovesNumbering(title: string)
    ensures var gs := HeadingGroups(title); var lead := SpanSpaces(title, 0);
      && |gs| <= 3
      && (gs == [] <==> !DigitAt(title, lead))
      && (gs == [] ==> StripHeading(title) == title)
      && (gs != [] ==> SpacesIn(title, 0, lead) && GroupsAt(title, lead, gs)
                       && title == title[..GroupsEnd(lead, gs)] + StripHeading(title))
      && (gs != [] ==> !StartsWithSpace(StripHeading(title)))
      && (gs != [] && StartsWithDigit(StripHeading(title)) ==> |gs| == 3)
  {
    var gs := HeadingGroups(title);
    var lead := SpanSpaces(title, 0);
    if gs != [] {
      var e := GroupsEnd(lead, gs);
      assert title == title[..e] + title[e..];
      assert gs[|gs| - 1].end == e;
      assert SpaceAt(title, e) ==> StartsWithSpace(title[e..]) by {
        if SpaceAt(title, e) { assert title[e..][0] == title[e]; }
      }
      assert DigitAt(title, e) ==> StartsWithDigit(title[e..]) by {
        if DigitAt(title, e) { assert title[e..][0] == title[e]; }
      }
      LastGroupGreedy(title, lead, gs);
    }
  }

  /** The last group of a run is followed by no whitespace. */
  lemma {:induction false} LastGroupGreedy(s: string, i: nat, cs: seq<Cut>)
    requires cs != [] && GroupsAt(s, i, cs)
    ensures cs[|cs| - 1].end <= |s| && !SpaceAt(s, cs[|cs| - 1].end)
    decreases |cs|
  {
    if |cs| > 1 {
      LastGroupGreedy(s, cs[0].end, cs[1..]);
      assert cs[1..][|cs| - 2] == cs[|cs| - 1];
    }
  }

  /** The catalogue's usual heading shape. */
  lemma StripHeadingExample()
    ensures HeadingGroups("149. ばけぞうり") == [Cut(3, 3, 4, 5)]
    ensures StripHeading("149. ばけぞうり") == "ばけぞうり"
  {
    var s := "149. ばけぞうり";
    assert SpanSpaces(s, 0) == 0;
    ParseGroupUnique(s, 0, Cut(3, 3, 4, 5));
  }

  /** Full-width digits and a full-width full stop are stripped as well. */
  lemma StripHeadingWideExample()
    ensures StripHeading("１４９．妖怪名") == "妖怪名"
  {
    var s := "１４９．妖怪名";
    assert SpanSpaces(s, 0) == 0;
    ParseGroupUnique(s, 0, Cut(3, 3, 4, 4));
  }

  /** Only three groups are removed: the fourth stays in the name. */
  lemma StripHeadingFourGroups()
    ensures StripHeading("1 2 3 4 名") == "4 名"
  {
    var s := "1 2 3 4 名";
    assert SpanSpaces(s, 0) == 0;
    ParseGroupUnique(s, 0, Cut(1, 2, 2, 2));
    ParseGroupUnique(s, 2, Cut(3, 4, 4, 4));
    ParseGroupUnique(s, 4, Cut(5, 6, 6, 6));
  }

  /** A heading made only of a number leaves nothing for the name. */
  lemma StripHeadingDigitsOnly()
    ensures StripHeading("149") == ""
  {
    var s := "149";
    assert SpanSpaces(s, 0) == 0;
    ParseGroupUnique(s, 0, Cut(3, 3, 3, 3));
  }

  lemma HeadingIdExamples()
    ensures HeadingId("149. ばけぞうり") == 149
    ensures HeadingId("007") == 7
    ensures HeadingId("名前のみ") == NoId
  {
    SpanAsciiDigitsOfPrefix("149. ばけぞうり", 3);
    assert "149. ばけぞうり"[..3] == "149";
    SpanAsciiDigitsOfPrefix("007", 3);
    assert "007"[..3] == "007";
    assert "149"[..2] == "14" && "14"[..1] == "1" && "1"[..0] == "";
    assert "007"[..2] == "00" && "00"[..1] == "0" && "0"[..0] == "";
  }
}
