/**
 * Hiding a yokai's names in its description on the front of a card
 * (web/src/App.tsx, `escapeRegExp`, `buildSpacedInsensitiveRegex`,
 * `maskMatchedPreservingSpaces` and `maskNamesInText`).
 *
 * A name is turned into a regular expression source (each character escaped,
 * `[\s　]*` between consecutive characters); that source is compiled by a
 * compiler for exactly the fragment of JavaScript regular expression syntax
 * involved, and the compiled pattern is run by a backtracking matcher with
 * JavaScript's greedy-first order. A global `replace` then masks every match.
 */
module Masking {
  import opened Wrappers
  import opened JsText

  /** The mask character `◯` (U+25EF). */
  const MaskChar: char := '\U{25EF}'

  /** `maskMatchedPreservingSpaces` on one character: `[^\s　]` becomes the mask. */
  function MaskCharOf(c: char): char {
    if IsSpace(c) then c else MaskChar
  }

  /** `matched.replace(/[^\s　]/g, '◯')` */
  function MaskMatched(m: string): (r: string)
    ensures |r| == |m|
    ensures forall k :: 0 <= k < |m| ==> r[k] == MaskCharOf(m[k])
  {
    if m == [] then [] else [MaskCharOf(m[0])] + MaskMatched(m[1..])
  }

  /** Masking what is already masked changes nothing. */
  lemma MaskMatchedIdempotent(m: string)
    ensures MaskMatched(MaskMatched(m)) == MaskMatched(m)
  {
  }

  /** The characters `escapeRegExp` puts a backslash in front of: `.*+?^${}()|[]\`. */
  predicate IsMeta(c: char) {
    c == '.' || c == '*' || c == '+' || c == '?' || c == '^' || c == '$' || c == '{' || c == '}'
    || c == '(' || c == ')' || c == '|' || c == '[' || c == ']' || c == '\\'
  }

  /** `text.replace(/[.*+?^${}()|[\]\\]/g, '\\$&')` */
  function EscapeRegExp(text: string): (r: string)
    ensures |r| >= |text|
  {
    if text == [] then []
    else (if IsMeta(text[0]) then ['\\', text[0]] else [text[0]]) + EscapeRegExp(text[1..])
  }

  /** What goes between two characters of a name: `[\s　]*`. */
  const Between: string := "[\\s\\u3000]*"

  /** The source that `buildSpacedInsensitiveRegex` hands to `new RegExp`: escaped characters joined by `Between`. */
  function PatternSource(name: string): string {
    if |name| <= 1 then EscapeRegExp(name)
    else EscapeRegExp(name[..1]) + Between + PatternSource(name[1..])
  }

  /** A compiled pattern element: one literal character, or a greedy run of whitespace. */
  datatype Atom = Lit(c: char) | Gap

  /**
   * The compiler for the fragment of regular expression syntax that pattern
   * sources are written in: the class-and-star `[\s　]*`, an escaped
   * metacharacter, or any other character standing for itself. Anything else
   * falls outside the fragment.
   */
  function Compile(src: string): Option<seq<Atom>>
    decreases |src|
  {
    if src == [] then Some([])
    else if StartsWith(src, Between) then
      match Compile(src[|Between|..])
      case None => None
      case Some(rest) => Some([Gap] + rest)
    else if src[0] == '\\' && |src| >= 2 && IsMeta(src[1]) then
      match Compile(src[2..])
      case None => None
      case Some(rest) => Some([Lit(src[1])] + rest)
    else if !IsMeta(src[0]) then
      match Compile(src[1..])
      case None => None
      case Some(rest) => Some([Lit(src[0])] + rest)
    else None
  }

  /** The intended meaning of a name's pattern: each character literally, a gap between neighbours. */
  function SpacedAtoms(name: string): (r: seq<Atom>)
    ensures name != [] ==> r != [] && r[0] == Lit(name[0])
  {
    if |name| <= 1 then (if name == [] then [] else [Lit(name[0])])
    else [Lit(name[0])] + ([Gap] + SpacedAtoms(name[1..]))
  }

  /** `new RegExp(pattern, 'g')`: compiling the source of a name gives that intended pattern. */
  function BuildRegex(name: string): Option<seq<Atom>> {
    Compile(PatternSource(name))
  }

  /** Compiling one escaped character followed by more source. */
  lemma CompileEscaped(c: char, rest: string)
    ensures Compile(EscapeRegExp([c]) + rest) == match Compile(rest)
                                                  case None => None
                                                  case Some(a) => Some([Lit(c)] + a)
  {
    var e := EscapeRegExp([c]);
    assert [c][0] == c && [c][1..] == [];
    assert EscapeRegExp([]) == [];
    assert e == (if IsMeta(c) then ['\\', c] else [c]);
    var src := e + rest;
    if IsMeta(c) {
      assert src[0] == '\\';
    } else {
      assert src[0] == c && c != '[';
    }
    assert !StartsWith(src, Between) by {
      assert Between[0] == '[';
      if |Between| <= |src| { assert src[..|Between|][0] == src[0]; }
    }
    if IsMeta(c) {
      assert src[2..] == rest;
    } else {
      assert src[1..] == rest;
    }
  }

  /** Metacharacters in a name are matched literally: the source compiles to the intended pattern. */
  lemma {:induction false} PatternSourceCompiles(name: string)
    ensures BuildRegex(name) == Some(SpacedAtoms(name))
    decreases |name|
  {
    if |name| == 0 {
    } else if |name| == 1 {
      assert name == [name[0]];
      CompileEscaped(name[0], []);
      assert EscapeRegExp(name) + [] == EscapeRegExp(name);
      assert Compile([]) == Some([]);
      assert Compile(EscapeRegExp(name)) == Some([Lit(name[0])] + []);
      assert [Lit(name[0])] + [] == [Lit(name[0])];
      assert PatternSource(name) == EscapeRegExp(name);
    } else {
      var tail := PatternSource(name[1..]);
      PatternSourceCompiles(name[1..]);
      assert name[..1] == [name[0]];
      var src := EscapeRegExp([name[0]]) + (Between + tail);
      assert PatternSource(name) == src;
      CompileEscaped(name[0], Between + tail);
      assert StartsWith(Between + tail, Between) by {
        assert (Between + tail)[..|Between|] == Between;
      }
      assert (Between + tail)[|Between|..] == tail;
      assert Compile(Between + tail) == Some([Gap] + SpacedAtoms(name[1..]));
      assert [Lit(name[0])] + ([Gap] + SpacedAtoms(name[1..])) == [Lit(name[0]), Gap] + SpacedAtoms(name[1..]);
    }
  }

  /**
   * Where a match of `atoms` that starts at `i` ends, trying the choices in
   * JavaScript's order: a gap first takes the whole whitespace run and then
   * gives characters back one at a time.
   */
  function MatchEnd(atoms: seq<Atom>, s: string, i: nat): (r: Option<nat>)
    requires i <= |s|
    ensures r.Some? ==> i <= r.value <= |s|
    decreases |atoms|, 1, 0
  {
    if atoms == [] then Some(i)
    else match atoms[0]
      case Lit(c) => if i < |s| && s[i] == c then MatchEnd(atoms[1..], s, i + 1) else None
      case Gap => GapTry(atoms[1..], s, i, SpanSpaces(s, i))
  }

  /** The gap that starts at `lo` trying the ends `k`, `k - 1`, ..., `lo`, in that order. */
  function GapTry(rest: seq<Atom>, s: string, lo: nat, k: nat): (r: Option<nat>)
    requires lo <= k <= |s|
    ensures r.Some? ==> lo <= r.value <= |s|
    decreases |rest| + 1, 0, k - lo
  {
    match MatchEnd(rest, s, k)
    case Some(e) => Some(e)
    case None => if k == lo then None else GapTry(rest, s, lo, k - 1)
  }

  /** `atoms` can match exactly `s[i..e]` (when each gap is free to take any whitespace run). */
  ghost predicate AtomsMatch(atoms: seq<Atom>, s: string, i: nat, e: nat)
    decreases |atoms|
  {
    if atoms == [] then i == e
    else match atoms[0]
      case Lit(c) => i < |s| && s[i] == c && AtomsMatch(atoms[1..], s, i + 1, e)
      case Gap => exists m :: i <= m <= |s| && SpacesIn(s, i, m) && AtomsMatch(atoms[1..], s, m, e)
  }

  /** A whitespace run from `i` never reaches past the greedy run. */
  lemma SpacesWithinSpan(s: string, i: nat, m: nat)
    requires i <= m <= |s| && SpacesIn(s, i, m)
    ensures m <= SpanSpaces(s, i)
  {
  }

  /** What the matcher finds is a match. */
  lemma {:induction false} MatchEndSound(atoms: seq<Atom>, s: string, i: nat)
    requires i <= |s| && MatchEnd(atoms, s, i).Some?
    ensures AtomsMatch(atoms, s, i, MatchEnd(atoms, s, i).value)
    decreases |atoms|, 1, 0
  {
    if atoms != [] {
      match atoms[0]
      case Lit(c) => MatchEndSound(atoms[1..], s, i + 1);
      case Gap =>
        var m := GapTrySound(atoms[1..], s, i, SpanSpaces(s, i));
        assert SpacesIn(s, i, m);
    }
  }

  /** A successful gap search ends the gap somewhere in the tried range and matches the rest from there. */
  lemma {:induction false} GapTrySound(rest: seq<Atom>, s: string, lo: nat, k: nat) returns (m: nat)
    requires lo <= k <= |s| && GapTry(rest, s, lo, k).Some?
    ensures lo <= m <= k && MatchEnd(rest, s, m) == GapTry(rest, s, lo, k)
    ensures AtomsMatch(rest, s, m, GapTry(rest, s, lo, k).value)
    decreases |rest| + 1, 0, k - lo
  {
    if MatchEnd(rest, s, k).Some? {
      m := k;
      MatchEndSound(rest, s, k);
    } else {
      m := GapTrySound(rest, s, lo, k - 1);
    }
  }

  /** The matcher misses nothing: wherever some match starts, it finds one. */
  lemma {:induction false} MatchEndComplete(atoms: seq<Atom>, s: string, i: nat, e: nat)
    requires i <= |s| && AtomsMatch(atoms, s, i, e)
    ensures MatchEnd(atoms, s, i).Some?
    decreases |atoms|
  {
    if atoms != [] {
      match atoms[0]
      case Lit(c) => MatchEndComplete(atoms[1..], s, i + 1, e);
      case Gap =>
        var m :| i <= m <= |s| && SpacesIn(s, i, m) && AtomsMatch(atoms[1..], s, m, e);
        MatchEndComplete(atoms[1..], s, m, e);
        SpacesWithinSpan(s, i, m);
        GapTryComplete(atoms[1..], s, i, SpanSpaces(s, i), m);
    }
  }

  /** The gap search succeeds when any end in its range lets the rest match. */
  lemma {:induction false} GapTryComplete(rest: seq<Atom>, s: string, lo: nat, k: nat, m: nat)
    requires lo <= m <= k <= |s| && MatchEnd(rest, s, m).Some?
    ensures GapTry(rest, s, lo, k).Some?
    decreases k - lo
  {
    if MatchEnd(rest, s, k).None? {
      GapTryComplete(rest, s, lo, k - 1, m);
    }
  }

  /** A name's pattern matches at `i` exactly when a stretch starting there spells the name with whitespace between its characters. */
  lemma MatchesExactlySpacedForms(name: string, s: string, i: nat)
    requires i <= |s|
    ensures MatchEnd(SpacedAtoms(name), s, i).Some? <==> exists e :: AtomsMatch(SpacedAtoms(name), s, i, e)
  {
    if MatchEnd(SpacedAtoms(name), s, i).Some? {
      var e := MatchEnd(SpacedAtoms(name), s, i).value;
      MatchEndSound(SpacedAtoms(name), s, i);
      assert AtomsMatch(SpacedAtoms(name), s, i, e);
    }
    if e :| AtomsMatch(SpacedAtoms(name), s, i, e) {
      MatchEndComplete(SpacedAtoms(name), s, i, e);
    }
  }

  /**
   * The pattern of a whitespace-free name matches `s[i..e]` exactly when that
   * stretch begins and ends with a non-whitespace character and reads as the
   * name once its whitespace is deleted.
   */
  lemma SpacedMatchIff(name: string, s: string, i: nat, e: nat)
    requires NoSpace(name) && name != [] && i <= e <= |s|
    ensures AtomsMatch(SpacedAtoms(name), s, i, e)
            <==> i < e && !IsSpace(s[i]) && !IsSpace(s[e - 1]) && RemoveSpaces(s[i..e]) == name
  {
    if AtomsMatch(SpacedAtoms(name), s, i, e) {
      SpacedMatchReadsAsName(name, s, i, e);
    }
    if i < e && !IsSpace(s[i]) && !IsSpace(s[e - 1]) && RemoveSpaces(s[i..e]) == name {
      NameReadingMatches(name, s, i, e);
    }
  }

  /** Deleting the whitespace of a character, a whitespace run after it, and the rest. */
  lemma RemoveSpacesAfterChar(s: string, i: nat, m: nat, e: nat)
    requires i < m <= e <= |s| && !IsSpace(s[i]) && SpacesIn(s, i + 1, m)
    ensures RemoveSpaces(s[i..e]) == [s[i]] + RemoveSpaces(s[m..e])
  {
    assert s[i..e] == ([s[i]] + s[i + 1..m]) + s[m..e];
    SpacesInSlice(s, i + 1, m);
    RemoveSpacesOfAllSpace(s[i + 1..m]);
    RemoveSpacesAppend([s[i]] + s[i + 1..m], s[m..e]);
    RemoveSpacesAppend([s[i]], s[i + 1..m]);
    assert RemoveSpaces([s[i]]) == [s[i]] + RemoveSpaces([]);
  }

  /** The pattern of a name, one literal then a gap then the rest's pattern. */
  lemma SpacedAtomsCons(name: string)
    requires |name| >= 2
    ensures SpacedAtoms(name)[0] == Lit(name[0])
    ensures SpacedAtoms(name)[1..][0] == Gap && SpacedAtoms(name)[1..][1..] == SpacedAtoms(name[1..])
  {
    assert SpacedAtoms(name)[1..] == [Gap] + SpacedAtoms(name[1..]);
  }

  lemma {:induction false} SpacedMatchReadsAsName(name: string, s: string, i: nat, e: nat)
    requires NoSpace(name) && name != [] && i <= |s|
    requires AtomsMatch(SpacedAtoms(name), s, i, e)
    ensures i < e <= |s| && !IsSpace(s[i]) && !IsSpace(s[e - 1]) && RemoveSpaces(s[i..e]) == name
    decreases |name|
  {
    var atoms := SpacedAtoms(name);
    assert s[i] == name[0];
    if |name| == 1 {
      assert atoms[1..] == [];
      assert s[i..e] == [s[i]];
      assert RemoveSpaces(s[i..e]) == [s[i]] + RemoveSpaces([]);
    } else {
      var rest := name[1..];
      SpacedAtomsCons(name);
      assert AtomsMatch(atoms[1..], s, i + 1, e);
      var m :| i + 1 <= m <= |s| && SpacesIn(s, i + 1, m) && AtomsMatch(SpacedAtoms(rest), s, m, e);
      SpacedMatchReadsAsName(rest, s, m, e);
      RemoveSpacesAfterChar(s, i, m, e);
      assert name == [name[0]] + rest;
    }
  }

  lemma {:induction false} NameReadingMatches(name: string, s: string, i: nat, e: nat)
    requires NoSpace(name) && name != [] && i < e <= |s|
    requires !IsSpace(s[i]) && !IsSpace(s[e - 1]) && RemoveSpaces(s[i..e]) == name
    ensures AtomsMatch(SpacedAtoms(name), s, i, e)
    decreases |name|
  {
    var atoms := SpacedAtoms(name);
    if e == i + 1 {
      assert s[i..e] == [s[i]];
      assert RemoveSpaces(s[i..e]) == [s[i]] + RemoveSpaces([]);
      assert atoms == [Lit(s[i])];
      assert atoms[1..] == [];
    } else {
      var m := SpanSpaces(s, i + 1);
      assert m < e;
      RemoveSpacesAfterChar(s, i, m, e);
      assert name[0] == s[i] && RemoveSpaces(s[m..e]) == name[1..];
      assert s[m..e] != [] && !IsSpace(s[m..e][0]);
      assert name[1..] != [];
      var rest := name[1..];
      NameReadingMatches(rest, s, m, e);
      SpacedAtomsCons(name);
      assert AtomsMatch(atoms[1..], s, i + 1, e);
    }
  }

  /** A match of a pattern that starts with a literal is not empty. */
  lemma MatchNonEmpty(atoms: seq<Atom>, s: string, i: nat)
    requires i <= |s| && atoms != [] && atoms[0].Lit? && MatchEnd(atoms, s, i).Some?
    ensures i < MatchEnd(atoms, s, i).value
  {
  }

  /** The scan masks the text of a non-empty match that starts at `i`. */
  predicate MasksAt(atoms: seq<Atom>, s: string, i: nat)
    requires i <= |s|
  {
    MatchEnd(atoms, s, i).Some? && MatchEnd(atoms, s, i).value != i
  }

  /** Where the scan goes on from `i`: the end of the match found there, or the next character. */
  function Step(atoms: seq<Atom>, s: string, i: nat): (n: nat)
    requires i < |s|
    ensures i < n <= |s|
  {
    if MasksAt(atoms, s, i) then MatchEnd(atoms, s, i).value else i + 1
  }

  /**
   * `s.replace(re, m => maskMatchedPreservingSpaces(m))` for a global `re`,
   * from position `i` on: at each position the pattern is tried; a match is
   * masked and the scan resumes at its end, otherwise one character is kept.
   * (An empty match would be replaced by the empty mask, its character kept.)
   */
  function ReplaceFrom(atoms: seq<Atom>, s: string, i: nat): (r: string)
    requires i <= |s|
    ensures |r| == |s| - i
    decreases |s| - i
  {
    if i == |s| then []
    else
      var n := Step(atoms, s, i);
      (if MasksAt(atoms, s, i) then MaskMatched(s[i..n]) else [s[i]]) + ReplaceFrom(atoms, s, n)
  }

  /** The replacement over the whole text. */
  function ReplaceAll(atoms: seq<Atom>, s: string): string {
    ReplaceFrom(atoms, s, 0)
  }

  /** Position `k` lies inside one of the matches the scan from `i` masks. */
  ghost predicate Covered(atoms: seq<Atom>, s: string, i: nat, k: nat)
    requires i <= |s|
    decreases |s| - i
  {
    if i == |s| then false
    else (MasksAt(atoms, s, i) && i <= k < Step(atoms, s, i)) || Covered(atoms, s, Step(atoms, s, i), k)
  }

  /** Every masked position lies inside a real match of the pattern. */
  lemma {:induction false} CoveredInMatch(atoms: seq<Atom>, s: string, i: nat, k: nat)
    requires i <= |s| && Covered(atoms, s, i, k)
    ensures exists a, e :: i <= a <= k < e <= |s| && AtomsMatch(atoms, s, a, e)
    decreases |s| - i
  {
    var n := Step(atoms, s, i);
    if MasksAt(atoms, s, i) && i <= k < n {
      MatchEndSound(atoms, s, i);
      assert AtomsMatch(atoms, s, i, n);
    } else {
      CoveredInMatch(atoms, s, n, k);
    }
  }

  /** The scan from `i` never covers a position before `i`. */
  lemma {:induction false} CoveredNotBefore(atoms: seq<Atom>, s: string, i: nat, k: nat)
    requires i <= |s| && k < i
    ensures !Covered(atoms, s, i, k)
    decreases |s| - i
  {
    if i < |s| {
      CoveredNotBefore(atoms, s, Step(atoms, s, i), k);
    }
  }

  /** The replacement character by character: masked inside a match unless whitespace, kept everywhere else. */
  lemma {:induction false} ReplaceFromPointwise(atoms: seq<Atom>, s: string, i: nat, k: nat)
    requires i <= k < |s|
    ensures ReplaceFrom(atoms, s, i)[k - i] == if Covered(atoms, s, i, k) then MaskCharOf(s[k]) else s[k]
    decreases |s| - i
  {
    var n := Step(atoms, s, i);
    var head := if MasksAt(atoms, s, i) then MaskMatched(s[i..n]) else [s[i]];
    assert |head| == n - i;
    assert ReplaceFrom(atoms, s, i) == head + ReplaceFrom(atoms, s, n);
    if k < n {
      CoveredNotBefore(atoms, s, n, k);
      if MasksAt(atoms, s, i) {
        assert head[k - i] == MaskCharOf(s[i..n][k - i]);
      }
    } else {
      ReplaceFromPointwise(atoms, s, n, k);
    }
  }

  /**
   * The scan from `i` covers the first character of every match that starts
   * at or after `i`: the scan either lands on that position and masks the
   * match found there, or steps over it inside an earlier masked match.
   */
  lemma {:induction false} MatchStartCovered(atoms: seq<Atom>, s: string, i: nat, a: nat, e: nat)
    requires i <= a <= |s| && atoms != [] && atoms[0].Lit? && AtomsMatch(atoms, s, a, e)
    ensures a < |s| && Covered(atoms, s, i, a)
    decreases |s| - i
  {
    MatchEndComplete(atoms, s, a, e);
    MatchNonEmpty(atoms, s, a);
    var n := Step(atoms, s, i);
    if !(MasksAt(atoms, s, i) && a < n) {
      MatchStartCovered(atoms, s, n, a, e);
    }
  }

  /**
   * A match that no earlier match straddles (none starts before it, from
   * `i` on, and ends after its start) is masked as a whole: the scan lands
   * on its start and masks the whole stretch the matcher finds there.
   */
  lemma {:induction false} UnstraddledMatchCovered(atoms: seq<Atom>, s: string, i: nat, a: nat, k: nat)
    requires i <= a <= |s| && atoms != [] && atoms[0].Lit? && MatchEnd(atoms, s, a).Some?
    requires forall b, f :: i <= b < a < f ==> !AtomsMatch(atoms, s, b, f)
    requires a <= k < MatchEnd(atoms, s, a).value
    ensures Covered(atoms, s, i, k)
    decreases a - i
  {
    if i == a {
      MatchNonEmpty(atoms, s, a);
    } else {
      var n := Step(atoms, s, i);
      if MasksAt(atoms, s, i) {
        MatchEndSound(atoms, s, i);
        assert n <= a;
      }
      UnstraddledMatchCovered(atoms, s, n, a, k);
    }
  }

  /** Every occurrence of a name starts with a masked character. */
  lemma NameMatchIsMasked(name: string, s: string, a: nat, e: nat)
    requires name != [] && a <= |s| && AtomsMatch(SpacedAtoms(name), s, a, e)
    ensures a < |s| && s[a] == name[0]
    ensures ReplaceAll(SpacedAtoms(name), s)[a] == MaskCharOf(name[0])
  {
    MatchStartCovered(SpacedAtoms(name), s, 0, a, e);
    ReplaceFromPointwise(SpacedAtoms(name), s, 0, a);
  }

  /**
   * An occurrence of a name that no earlier occurrence straddles is masked
   * as a whole: every character of the stretch the pattern matches there
   * becomes the mask, except whitespace. This covers the first occurrence
   * and every later one that does not overlap an earlier one.
   */
  lemma UnoverlappedNameMatchIsMasked(name: string, s: string, a: nat, e: nat, k: nat)
    requires name != [] && a <= |s| && AtomsMatch(SpacedAtoms(name), s, a, e)
    requires forall b, f :: 0 <= b < a < f ==> !AtomsMatch(SpacedAtoms(name), s, b, f)
    ensures MatchEnd(SpacedAtoms(name), s, a).Some?
    ensures a <= k < MatchEnd(SpacedAtoms(name), s, a).value ==> ReplaceAll(SpacedAtoms(name), s)[k] == MaskCharOf(s[k])
  {
    MatchEndComplete(SpacedAtoms(name), s, a, e);
    if a <= k < MatchEnd(SpacedAtoms(name), s, a).value {
      UnstraddledMatchCovered(SpacedAtoms(name), s, 0, a, k);
      ReplaceFromPointwise(SpacedAtoms(name), s, 0, k);
    }
  }

  /**
   * Characters outside every match of the pattern are unchanged, and so is
   * all whitespace; a masked character lies inside a match.
   */
  lemma ReplaceAllKeepsOutside(atoms: seq<Atom>, s: string, k: nat)
    requires k < |s|
    ensures |ReplaceAll(atoms, s)| == |s|
    ensures IsSpace(s[k]) ==> ReplaceAll(atoms, s)[k] == s[k]
    ensures (forall a, e :: 0 <= a <= k < e <= |s| ==> !AtomsMatch(atoms, s, a, e))
            ==> ReplaceAll(atoms, s)[k] == s[k]
    ensures ReplaceAll(atoms, s)[k] != s[k] ==> ReplaceAll(atoms, s)[k] == MaskChar
  {
    ReplaceFromPointwise(atoms, s, 0, k);
    if Covered(atoms, s, 0, k) {
      CoveredInMatch(atoms, s, 0, k);
    }
  }

  /** `r` is `s` with some non-whitespace characters replaced by the mask, and nothing else changed. */
  predicate Masked(s: string, r: string) {
    |r| == |s| && forall k :: 0 <= k < |s| ==> r[k] == s[k] || (r[k] == MaskChar && !IsSpace(s[k]))
  }

  lemma MaskedRefl(s: string)
    ensures Masked(s, s)
  {
  }

  /** Masking twice is masking. */
  lemma MaskedTrans(a: string, b: string, c: string)
    requires Masked(a, b) && Masked(b, c)
    ensures Masked(a, c)
  {
    forall k | 0 <= k < |a| ensures c[k] == a[k] || (c[k] == MaskChar && !IsSpace(a[k])) {
      assert c[k] == b[k] || (c[k] == MaskChar && !IsSpace(b[k]));
    }
  }

  lemma ReplaceAllMasked(atoms: seq<Atom>, s: string)
    ensures Masked(s, ReplaceAll(atoms, s))
  {
    forall k | 0 <= k < |s| ensures ReplaceAll(atoms, s)[k] == s[k] || (ReplaceAll(atoms, s)[k] == MaskChar && !IsSpace(s[k])) {
      ReplaceFromPointwise(atoms, s, 0, k);
    }
  }

  /** Every name of the list in turn, skipping empty names, over a non-empty text. */
  function MaskAllNames(names: seq<string>, s: string): (r: string)
    decreases |names|
  {
    if names == [] then s
    else
      var prev := MaskAllNames(names[..|names| - 1], s);
      var n := names[|names| - 1];
      if n == [] then prev else ReplaceAll(SpacedAtoms(n), prev)
  }

  /**
   * `maskNamesInText`: a missing or empty text and an empty name list are
   * returned as they are; otherwise the result is a masking of the text.
   */
  function MaskNames(names: seq<string>, text: Option<string>): (r: Option<string>)
    ensures r.Some? <==> text.Some?
    ensures text.Some? ==> Masked(text.value, r.value)
    ensures text.None? || text.value == [] || names == [] ==> r == text
  {
    if text.None? then text
    else if text.value == [] || names == [] then
      MaskedRefl(text.value);
      text
    else
      MaskAllNamesMasked(names, text.value);
      Some(MaskAllNames(names, text.value))
  }

  /** With a single non-empty name, masking is that name's global replace. */
  lemma MaskOneName(n: string, text: string)
    requires n != []
    ensures MaskNames([n], Some(text)) == Some(ReplaceAll(SpacedAtoms(n), text))
  {
    if text == [] {
      assert ReplaceAll(SpacedAtoms(n), text) == [];
    } else {
      assert [n][..0] == [] && [n][0] == n;
      assert MaskAllNames([n], text) == ReplaceAll(SpacedAtoms(n), MaskAllNames([], text));
    }
  }

  /** Masking all names keeps the length and the whitespace, and only ever writes the mask. */
  lemma {:induction false} MaskAllNamesMasked(names: seq<string>, s: string)
    ensures Masked(s, MaskAllNames(names, s))
    decreases |names|
  {
    if names == [] {
      MaskedRefl(s);
    } else {
      var prev := MaskAllNames(names[..|names| - 1], s);
      MaskAllNamesMasked(names[..|names| - 1], s);
      var n := names[|names| - 1];
      if n != [] {
        ReplaceAllMasked(SpacedAtoms(n), prev);
        MaskedTrans(s, prev, ReplaceAll(SpacedAtoms(n), prev));
      }
    }
  }

  /** The names after the first `p` only mask further what the first `p` names have masked. */
  lemma {:induction false} MaskAllNamesGrows(names: seq<string>, p: nat, s: string)
    requires p <= |names|
    ensures Masked(MaskAllNames(names[..p], s), MaskAllNames(names, s))
    decreases |names|
  {
    if p == |names| {
      assert names[..p] == names;
      MaskedRefl(MaskAllNames(names, s));
    } else {
      var init := names[..|names| - 1];
      assert init[..p] == names[..p];
      MaskAllNamesGrows(init, p, s);
      var prev := MaskAllNames(init, s);
      var n := names[|names| - 1];
      if n != [] {
        ReplaceAllMasked(SpacedAtoms(n), prev);
        MaskedTrans(MaskAllNames(names[..p], s), prev, ReplaceAll(SpacedAtoms(n), prev));
      }
    }
  }

  /** A position that a masking has already settled, masked or whitespace, stays as it is under further masking. */
  lemma MaskedKeepsSettled(x: string, y: string, k: nat, c: char)
    requires Masked(x, y) && k < |x| && x[k] == MaskCharOf(c)
    ensures y[k] == MaskCharOf(c)
  {
  }

  /**
   * The first name of the list (the card's own name) stays masked whatever
   * aliases follow it: every occurrence keeps its first character masked,
   * and an occurrence that no earlier one straddles stays masked whole.
   */
  lemma FirstOfListIsMasked(names: seq<string>, t: string, a: nat, e: nat, k: nat)
    requires names != [] && names[0] != [] && a <= |t| && AtomsMatch(SpacedAtoms(names[0]), t, a, e)
    ensures a < |t| && MaskNames(names, Some(t)).Some? && MatchEnd(SpacedAtoms(names[0]), t, a).Some?
    ensures MaskNames(names, Some(t)).value[a] == MaskCharOf(names[0][0])
    ensures (forall b, f :: 0 <= b < a < f ==> !AtomsMatch(SpacedAtoms(names[0]), t, b, f))
            && a <= k < MatchEnd(SpacedAtoms(names[0]), t, a).value
            ==> MaskNames(names, Some(t)).value[k] == MaskCharOf(t[k])
  {
    var n := names[0];
    NameMatchIsMasked(n, t, a, e);
    var first := ReplaceAll(SpacedAtoms(n), t);
    assert names[..1] == [n];
    MaskOneName(n, t);
    MaskAllNamesGrows(names, 1, t);
    var all := MaskAllNames(names, t);
    assert Masked(first, all);
    MaskedKeepsSettled(first, all, a, n[0]);
    MatchEndComplete(SpacedAtoms(n), t, a, e);
    if (forall b, f :: 0 <= b < a < f ==> !AtomsMatch(SpacedAtoms(n), t, b, f))
       && a <= k < MatchEnd(SpacedAtoms(n), t, a).value {
      UnoverlappedNameMatchIsMasked(n, t, a, e, k);
      MaskedKeepsSettled(first, all, k, t[k]);
    }
  }

  /** `maskNamesInText` as the app runs it: one global replace per non-empty name, in list order. */
  method MaskNamesInText(names: seq<string>, text: Option<string>) returns (r: Option<string>)
    ensures r == MaskNames(names, text)
  {
    if text.None? || text.value == [] || |names| == 0 {
      return text;
    }
    var result := text.value;
    for i := 0 to |names|
      invariant result == MaskAllNames(names[..i], text.value)
    {
      assert names[..i + 1][..i] == names[..i];
      var n := names[i];
      if n == [] {
        continue;
      }
      var re := BuildRegex(n);
      PatternSourceCompiles(n);
      result := ReplaceAll(re.value, result);
    }
    assert names[..|names|] == names;
    r := Some(result);
  }

  /** A name written with a space inside it is found and masked; the space is kept. */
  lemma MaskExample()
    ensures MaskNames(["ぬら"], Some("ぬ らの")) == Some("◯ ◯の")
  {
    var s := "ぬ らの";
    var atoms := SpacedAtoms("ぬら");
    assert atoms == [Lit('ぬ'), Gap, Lit('ら')] by {
      assert "ぬら"[1..] == "ら";
    }
    assert SpanSpaces(s, 1) == 2 by {
      assert IsSpace(s[1]) && !IsSpace(s[2]);
      assert SpanSpaces(s, 2) == 2;
    }
    assert MatchEnd(atoms[2..], s, 2) == Some(3) by {
      assert atoms[2..][1..] == [];
    }
    assert MatchEnd(atoms[1..], s, 1) == Some(3) by {
      assert atoms[1..][1..] == atoms[2..];
    }
    assert MatchEnd(atoms, s, 0) == Some(3);
    assert s[0..3] == "ぬ ら";
    assert MaskMatched("ぬ ら") == "◯ ◯" by {
      assert "ぬ ら"[1..] == " ら";
      assert " ら"[1..] == "ら";
      assert "ら"[1..] == [];
    }
    assert MatchEnd(atoms, s, 3) == None;
    assert ReplaceFrom(atoms, s, 4) == [];
    assert ReplaceFrom(atoms, s, 3) == "の";
    assert ReplaceAll(atoms, s) == "◯ ◯" + "の";
    assert ["ぬら"][..0] == [];
    assert MaskAllNames(["ぬら"], s) == ReplaceAll(atoms, s);
    assert "◯ ◯" + "の" == "◯ ◯の";
    assert s != [];
  }
}
