/**
 * Turning one catalogue section into a yokai record, and one catalogue page
 * into the records of its sections (scripts/scrape.ts,
 * `parseYokaiFromSection` and `scrapePage`).
 *
 * The HTML is not modelled: a section arrives as the texts the scraper's
 * selectors pick out of it. Unicode NFKC normalisation and URL resolution
 * are supplied by the caller as a `Host`.
 */
module Extractor {
  import opened Wrappers
  import opened JsText
  import opened Heading

  /** The platform services the scraper calls but this model does not define. */
  datatype Host = Host(
    /** `s.normalize("NFKC")` */
    nfkc: string -> string,
    /** `new URL(src, base).toString()`, or `None` when the constructor throws */
    resolveUrl: (string, string) -> Option<string>)

  /** A `p.border_text` paragraph: its whole text and the text of each `<strong>` inside it. */
  datatype InfoLine = InfoLine(text: string, strongs: seq<string>)

  /** A paragraph directly inside `div.text_area`, and whether it has the class `border_text`. */
  datatype Paragraph = Paragraph(text: string, isBorder: bool)

  /**
   * What the selectors read from one `section.statue_box`: the text of the
   * first `h3.simple` (empty when there is none), the `src` of the image in
   * `p.img_box` (absent when there is no image or no attribute), the
   * `p.border_text` paragraphs in document order, and the paragraphs directly
   * inside `div.text_area`, in document order.
   */
  datatype Section = Section(
    heading: string,
    imageSrc: Option<string>,
    infoLines: seq<InfoLine>,
    paragraphs: seq<Paragraph>)

  /** One scraped entry; `id` is -1 when the heading carries no number. */
  datatype Yokai = Yokai(
    id: int,
    name: string,
    imageUrl: Option<string>,
    location: Option<string>,
    description: Option<string>,
    reading: Option<string>,
    sourcePage: string)

  /** `absoluteUrl`: no URL for a missing or empty `src`, otherwise the resolved one. */
  function AbsoluteUrl(host: Host, base: string, src: Option<string>): (r: Option<string>)
    ensures src.None? || src == Some("") ==> r.None?
    ensures src.Some? && src.value != "" ==> r == host.resolveUrl(src.value, base)
  {
    match src
    case None => None
    case Some(v) => if v == "" then None else host.resolveUrl(v, base)
  }

  /** `.map(t => t.trim()).filter(Boolean)`: the trimmed texts that are not empty, in order. */
  function NonEmptyTrimmed(ss: seq<string>): (r: seq<string>)
    ensures |r| <= |ss|
    ensures forall k :: 0 <= k < |r| ==> r[k] != []
    ensures r == [] <==> forall k :: 0 <= k < |ss| ==> Trim(ss[k]) == []
  {
    if ss == [] then []
    else
      var t := Trim(ss[0]);
      var rest := NonEmptyTrimmed(ss[1..]);
      assert forall k :: 1 <= k < |ss| ==> ss[k] == ss[1..][k - 1];
      if t == [] then rest else [t] + rest
  }

  /**
   * One text gives its trim, or nothing when that trim is empty; with
   * `NonEmptyTrimmedAppend` this fixes the result for every list of texts.
   */
  lemma NonEmptyTrimmedOne(x: string)
    ensures NonEmptyTrimmed([x]) == (if Trim(x) == [] then [] else [Trim(x)])
  {
    assert [x][1..] == [];
  }

  /** Trimming and filtering distribute over concatenation. */
  lemma {:induction false} NonEmptyTrimmedAppend(a: seq<string>, b: seq<string>)
    ensures NonEmptyTrimmed(a + b) == NonEmptyTrimmed(a) + NonEmptyTrimmed(b)
  {
    if a != [] {
      assert (a + b)[0] == a[0];
      assert (a + b)[1..] == a[1..] + b;
      NonEmptyTrimmedAppend(a[1..], b);
    } else {
      assert a + b == b;
    }
  }

  /**
   * The text a field pattern is matched against, `raw.trim().replace(/\s+/g, "")`.
   * Trimming only removes whitespace, which the second step deletes anyway,
   * so the condensed text is the line with every whitespace character deleted.
   */
  function Condense(text: string): string {
    RemoveSpaces(text)
  }

  /** Condensing is the scraper's two steps: trim, then delete every whitespace run. */
  lemma CondenseIsTrimThenRemove(text: string)
    ensures Condense(text) == RemoveSpaces(Trim(text))
  {
    RemoveSpacesOfTrim(text);
  }

  /** The class `[／/:：]` between a field's label and its value. */
  predicate IsFieldSeparator(c: char) {
    c == '／' || c == '/' || c == ':' || c == '：'
  }

  /** `label[／/:：](.+)` matches at `i`: the label, a separator, and at least one more character. */
  predicate MatchAt(c: string, key: string, i: nat) {
    i + |key| + 1 < |c| && c[i..i + |key|] == key && IsFieldSeparator(c[i + |key|])
  }

  /** The first of the alternative labels with which the pattern matches at `i`. */
  function FirstLabelAt(labels: seq<string>, c: string, i: nat): (r: Option<string>)
    ensures r.Some? ==> r.value in labels && MatchAt(c, r.value, i)
    ensures r.None? <==> forall l :: l in labels ==> !MatchAt(c, l, i)
  {
    if labels == [] then None
    else if MatchAt(c, labels[0], i) then Some(labels[0])
    else
      var r := FirstLabelAt(labels[1..], c, i);
      assert forall l :: l in labels ==> l == labels[0] || l in labels[1..];
      r
  }

  /** The leftmost position at or after `i` where the field pattern matches. */
  function MatchPosition(labels: seq<string>, c: string, i: nat): (r: Option<nat>)
    ensures r.Some? ==> i <= r.value < |c| && FirstLabelAt(labels, c, r.value).Some?
    ensures forall k :: i <= k && (r.None? || k < r.value) ==> FirstLabelAt(labels, c, k).None?
    decreases |c| - i
  {
    if i >= |c| then
      assert forall k :: i <= k ==> FirstLabelAt(labels, c, k).None?;
      None
    else if FirstLabelAt(labels, c, i).Some? then Some(i)
    else MatchPosition(labels, c, i + 1)
  }

  /**
   * `c.match(/(?:label|…)[／/:：](.+)/)?.[1] ?? null` on condensed text:
   * everything after the separator of the leftmost match (condensed text
   * holds no line terminator, so `.+` runs to the end).
   */
  function Capture(labels: seq<string>, c: string): (r: Option<string>)
    requires NoSpace(c)
    ensures r.Some? ==> r.value != []
  {
    match MatchPosition(labels, c, 0)
    case None => None
    case Some(i) =>
      var l := FirstLabelAt(labels, c, i).value;
      Some(c[i + |l| + 1..])
  }

  /** The field pattern captures nothing exactly when it matches nowhere. */
  lemma CaptureNoneIffNoMatch(labels: seq<string>, c: string)
    requires NoSpace(c)
    ensures Capture(labels, c).None? <==> forall i, l :: 0 <= i && l in labels ==> !MatchAt(c, l, i)
  {
    var p := MatchPosition(labels, c, 0);
    if p.Some? {
      var l := FirstLabelAt(labels, c, p.value).value;
      assert l in labels && MatchAt(c, l, p.value);
    } else {
      forall i, l | 0 <= i && l in labels ensures !MatchAt(c, l, i) {
        assert FirstLabelAt(labels, c, i).None?;
      }
    }
  }

  /** The value follows the leftmost label-and-separator in the text, and no label matches earlier. */
  lemma CaptureIsLeftmost(labels: seq<string>, c: string)
    requires NoSpace(c) && Capture(labels, c).Some?
    ensures exists i, l :: 0 <= i && l in labels && MatchAt(c, l, i)
                           && Capture(labels, c).value == c[i + |l| + 1..]
                           && forall k, m :: 0 <= k < i && m in labels ==> !MatchAt(c, m, k)
  {
    var i := MatchPosition(labels, c, 0).value;
    var l := FirstLabelAt(labels, c, i).value;
    assert l in labels && MatchAt(c, l, i);
    forall k, m | 0 <= k < i && m in labels ensures !MatchAt(c, m, k) {
      assert FirstLabelAt(labels, c, k).None?;
    }
  }

  /**
   * The value of a labelled field from one info line: the last non-empty
   * `<strong>` text when there is one, otherwise what follows one of the
   * labels and a separator in the condensed text of the line.
   */
  function FieldValue(labels: seq<string>, line: InfoLine): (r: Option<string>)
    ensures r.Some? ==> r.value != []
    ensures NonEmptyTrimmed(line.strongs) != [] ==> r == Some(Last(NonEmptyTrimmed(line.strongs)))
    ensures NonEmptyTrimmed(line.strongs) == [] ==> r == Capture(labels, Condense(line.text))
  {
    var strongs := NonEmptyTrimmed(line.strongs);
    if strongs != [] then Some(Last(strongs)) else Capture(labels, Condense(line.text))
  }

  function Last(ss: seq<string>): string
    requires ss != []
  {
    ss[|ss| - 1]
  }

  const LocationLabels: seq<string> := ["出現地"]
  const ReadingLabels: seq<string> := ["読み", "よみ"]

  /**
   * The location comes from the FIRST info line only, whatever its label:
   * its last `<strong>`, or the text after `出現地` and a separator.
   */
  function LocationOf(s: Section): (r: Option<string>)
    ensures s.infoLines == [] ==> r.None?
    ensures s.infoLines != [] ==> r == FieldValue(LocationLabels, s.infoLines[0])
  {
    if s.infoLines == [] then None else FieldValue(LocationLabels, s.infoLines[0])
  }

  /** `/^(読み|よみ)/`: the condensed line starts with one of the reading labels. */
  predicate IsReadingLine(line: InfoLine) {
    var c := Condense(line.text);
    StartsWith(c, "読み") || StartsWith(c, "よみ")
  }

  /** What one info line contributes to the reading: nothing unless it is a reading line. */
  function ReadingValue(line: InfoLine): (r: Option<string>)
    ensures r.Some? ==> IsReadingLine(line) && r.value != []
    ensures IsReadingLine(line) ==> r == FieldValue(ReadingLabels, line)
  {
    if IsReadingLine(line) then FieldValue(ReadingLabels, line) else None
  }

  /**
   * The reading of a section: the value of the first reading line that
   * yields one. A reading line that yields nothing does not stop the search.
   */
  function ReadingOf(lines: seq<InfoLine>): Option<string> {
    FirstSome(ReadingValue, lines)
  }

  /** There is no reading exactly when no info line yields one. */
  lemma ReadingOfNone(lines: seq<InfoLine>)
    ensures ReadingOf(lines).None? <==> forall k :: 0 <= k < |lines| ==> ReadingValue(lines[k]).None?
  {
    FirstSomeNone(ReadingValue, lines);
  }

  /** The reading is the value of the first line that yields one. */
  lemma ReadingOfIsFirst(lines: seq<InfoLine>, k: nat)
    requires k < |lines| && ReadingValue(lines[k]).Some?
    requires forall j :: 0 <= j < k ==> ReadingValue(lines[j]).None?
    ensures ReadingOf(lines) == ReadingValue(lines[k])
  {
    FirstSomeIsFirst(ReadingValue, lines, k);
  }

  /** `reading` is truthy: set, and not the empty string. */
  predicate Truthy(o: Option<string>) {
    o.Some? && o.value != []
  }

  /** The `.each` over the info lines that looks for the reading, returning early once one is found. */
  method ScanReading(lines: seq<InfoLine>) returns (reading: Option<string>)
    ensures reading == ReadingOf(lines)
  {
    reading := None;
    var n := 0;
    while n < |lines|
      invariant 0 <= n <= |lines|
      invariant reading == ReadingOf(lines[..n])
      invariant reading.Some? ==> reading.value != []
    {
      var line := lines[n];
      ghost var next := if reading.Some? then reading else ReadingValue(line);
      assert next == ReadingOf(lines[..n + 1]) by {
        FirstSomeSnoc(ReadingValue, lines[..n], line);
        assert lines[..n + 1] == lines[..n] + [line];
      }
      if !Truthy(reading) {
        if IsReadingLine(line) {
          reading := FieldValue(ReadingLabels, line);
        }
      }
      assert reading == next;
      n := n + 1;
    }
    assert lines[..n] == lines;
  }

  /** The text of a paragraph the description selector keeps (`.not(".border_text")`). */
  function PlainText(p: Paragraph): (r: Option<string>)
    ensures r.Some? <==> !p.isBorder
  {
    if p.isBorder then None else Some(p.text)
  }

  /** The trimmed text, or nothing when that is empty. */
  function NonEmpty(text: string): (r: Option<string>)
    ensures r.None? <==> AllSpace(text)
    ensures r.Some? ==> r.value == Trim(text) && r.value != []
                        && !IsSpace(r.value[0]) && !IsSpace(r.value[|r.value| - 1])
  {
    var t := Trim(text);
    if |t| > 0 then Some(t) else None
  }

  /** The description: the trimmed text of the first paragraph that is not an info line. */
  function DescriptionOf(s: Section): Option<string> {
    NonEmpty(FirstSome(PlainText, s.paragraphs).GetOr(""))
  }

  /** The description comes from the first plain paragraph, and is absent when that one is blank. */
  lemma DescriptionIsFirstPlain(s: Section, k: nat)
    requires k < |s.paragraphs| && !s.paragraphs[k].isBorder
    requires forall j :: 0 <= j < k ==> s.paragraphs[j].isBorder
    ensures DescriptionOf(s) == NonEmpty(s.paragraphs[k].text)
  {
    FirstSomeIsFirst(PlainText, s.paragraphs, k);
  }

  /** A section whose paragraphs are all info lines has no description. */
  lemma DescriptionWithoutPlain(s: Section)
    requires forall j :: 0 <= j < |s.paragraphs| ==> s.paragraphs[j].isBorder
    ensures DescriptionOf(s).None?
  {
    FirstSomeNone(PlainText, s.paragraphs);
  }

  /** The entry's name: the heading, trimmed, without its numbering, normalised. */
  function NameOf(host: Host, s: Section): string {
    NormalizeName(host.nfkc, StripHeading(Trim(s.heading)))
  }

  /** The id: the leading ASCII number of the NFKC form of the trimmed heading, or -1. */
  function IdOf(host: Host, s: Section): int {
    HeadingId(host.nfkc(Trim(s.heading)))
  }

  /** `parseYokaiFromSection`: no entry when the name comes out empty. */
  function Extract(host: Host, s: Section, pageUrl: string): (r: Option<Yokai>)
    ensures r.None? <==> NameOf(host, s) == []
    ensures r.Some? ==> && r.value.name == NameOf(host, s) && r.value.name != []
                        && NoSpace(r.value.name)
                        && r.value.id == IdOf(host, s) && r.value.id >= NoId
                        && r.value.imageUrl == AbsoluteUrl(host, pageUrl, s.imageSrc)
                        && r.value.location == LocationOf(s)
                        && r.value.description == DescriptionOf(s)
                        && r.value.reading == ReadingOf(s.infoLines)
                        && r.value.sourcePage == pageUrl
  {
    var name := NameOf(host, s);
    if name == [] then None
    else Some(Yokai(IdOf(host, s), name, AbsoluteUrl(host, pageUrl, s.imageSrc),
                    LocationOf(s), DescriptionOf(s), ReadingOf(s.infoLines), pageUrl))
  }

  /** `parseYokaiFromSection` as the scraper runs it, with its loop over the info lines. */
  method ParseYokaiFromSection(host: Host, s: Section, pageUrl: string) returns (y: Option<Yokai>)
    ensures y == Extract(host, s, pageUrl)
  {
    var imageUrl := AbsoluteUrl(host, pageUrl, s.imageSrc);
    var title := Trim(s.heading);
    var id := HeadingId(host.nfkc(title));
    var name := NormalizeName(host.nfkc, StripHeading(title));
    var location := LocationOf(s);
    var description := DescriptionOf(s);
    var reading := ScanReading(s.infoLines);
    if name == [] {
      return None;
    }
    y := Some(Yokai(id, name, imageUrl, location, description, reading, pageUrl));
  }

  /** The entries of a page's sections, in document order. */
  function ExtractAll(host: Host, sections: seq<Section>, pageUrl: string): seq<Yokai> {
    Collect((s: Section) => Extract(host, s, pageUrl), sections)
  }

  /** Extraction is section by section: a page split in two gives the two halves' entries. */
  lemma ExtractAllAppend(host: Host, a: seq<Section>, b: seq<Section>, pageUrl: string)
    ensures ExtractAll(host, a + b, pageUrl) == ExtractAll(host, a, pageUrl) + ExtractAll(host, b, pageUrl)
  {
    CollectAppend((s: Section) => Extract(host, s, pageUrl), a, b);
  }

  /** Every entry of a page comes from one of its sections, and names that page. */
  lemma ExtractAllFromSections(host: Host, sections: seq<Section>, pageUrl: string, y: Yokai)
    requires y in ExtractAll(host, sections, pageUrl)
    ensures exists k :: 0 <= k < |sections| && Extract(host, sections[k], pageUrl) == Some(y)
    ensures y.sourcePage == pageUrl && y.name != [] && y.id >= NoId
  {
    var f := (s: Section) => Extract(host, s, pageUrl);
    CollectFrom(f, sections, y);
    var k :| 0 <= k < |sections| && f(sections[k]) == Some(y);
    assert Extract(host, sections[k], pageUrl) == Some(y);
  }

  /** Every section that yields an entry contributes it to the page. */
  lemma ExtractAllKeepsEntries(host: Host, sections: seq<Section>, pageUrl: string, k: nat)
    requires k < |sections| && Extract(host, sections[k], pageUrl).Some?
    ensures Extract(host, sections[k], pageUrl).value in ExtractAll(host, sections, pageUrl)
  {
    CollectKeeps((s: Section) => Extract(host, s, pageUrl), sections, k);
  }

  /** `scrapePage` after the download and the parse: one push per section that yields an entry. */
  method ScrapePage(host: Host, sections: seq<Section>, pageUrl: string) returns (items: seq<Yokai>)
    ensures items == ExtractAll(host, sections, pageUrl)
  {
    items := [];
    var n := 0;
    while n < |sections|
      invariant 0 <= n <= |sections|
      invariant items == ExtractAll(host, sections[..n], pageUrl)
    {
      var y := ParseYokaiFromSection(host, sections[n], pageUrl);
      assert sections[..n + 1][..n] == sections[..n];
      assert sections[..n + 1][n] == sections[n];
      if y.Some? {
        items := items + [y.value];
      }
      n := n + 1;
    }
    assert sections[..n] == sections;
  }

  /** A concrete info line: the location after `出現地：` in a line without `<strong>`. */
  lemma LocationExample()
    ensures LocationOf(Section("", None, [InfoLine("出現地： 鳥取県", [])], [])) == Some("鳥取県")
  {
    CondenseExample();
    CaptureExample();
    assert NonEmptyTrimmed([]) == [];
  }

  /** Condensing joins the words around a whitespace run. */
  lemma CondenseJoins(a: string, sp: string, b: string)
    requires NoSpace(a) && AllSpace(sp) && NoSpace(b)
    ensures Condense(a + sp + b) == a + b
  {
    RemoveSpacesAppend(a + sp, b);
    RemoveSpacesAppend(a, sp);
    RemoveSpacesOfNoSpace(a);
    RemoveSpacesOfNoSpace(b);
    RemoveSpacesOfAllSpace(sp);
  }

  lemma CondenseExample()
    ensures Condense("出現地： 鳥取県") == "出現地：鳥取県"
  {
    assert "出現地： 鳥取県" == "出現地：" + " " + "鳥取県";
    CondenseJoins("出現地：", " ", "鳥取県");
  }

  lemma CaptureExample()
    ensures Capture(LocationLabels, "出現地：鳥取県") == Some("鳥取県")
  {
    var c := "出現地：鳥取県";
    assert MatchAt(c, "出現地", 0) by {
      assert c[0..3] == "出現地";
    }
    assert FirstLabelAt(LocationLabels, c, 0) == Some("出現地");
    assert MatchPosition(LocationLabels, c, 0) == Some(0);
    assert c[4..] == "鳥取県";
  }

  /** A full-width slash separates the label from the value as well. */
  lemma LocationSlashExample()
    ensures LocationOf(Section("", None, [InfoLine("出現地／伊勢（三重県）", [])], [])) == Some("伊勢（三重県）")
  {
    SlashCondense();
    SlashCapture();
    assert NonEmptyTrimmed([]) == [];
  }

  lemma SlashCondense()
    ensures Condense("出現地／伊勢（三重県）") == "出現地／伊勢（三重県）"
  {
    assert "出現地／伊勢（三重県）" == "出現地／" + "伊勢（" + "三重県）";
    RemoveSpacesAppend("出現地／" + "伊勢（", "三重県）");
    RemoveSpacesAppend("出現地／", "伊勢（");
    SlashPieces();
  }

  lemma SlashPieces()
    ensures RemoveSpaces("出現地／") == "出現地／"
    ensures RemoveSpaces("伊勢（") == "伊勢（"
    ensures RemoveSpaces("三重県）") == "三重県）"
  {
    assert RemoveSpaces("出現地／") == "出現地／" by { RemoveSpacesOfNoSpace("出現地／"); }
    assert RemoveSpaces("伊勢（") == "伊勢（" by { RemoveSpacesOfNoSpace("伊勢（"); }
    assert RemoveSpaces("三重県）") == "三重県）" by { RemoveSpacesOfNoSpace("三重県）"); }
  }

  lemma SlashCapture()
    ensures Capture(LocationLabels, "出現地／伊勢（三重県）") == Some("伊勢（三重県）")
  {
    var c := "出現地／伊勢（三重県）";
    assert MatchAt(c, "出現地", 0) by {
      assert c[0..3] == "出現地";
    }
    assert FirstLabelAt(LocationLabels, c, 0) == Some("出現地");
    assert MatchPosition(LocationLabels, c, 0) == Some(0);
    assert c[4..] == "伊勢（三重県）";
  }

  /** The last non-empty `<strong>` of the first info line wins, whatever the line says. */
  lemma LocationPrefersStrong()
    ensures LocationOf(Section("", None, [InfoLine("出現地：鳥取県", ["鳥取県", "境港市", " "])], []))
            == Some("境港市")
  {
    StrongsExample();
  }

  lemma StrongsExample()
    ensures NonEmptyTrimmed(["鳥取県", "境港市", " "]) == ["鳥取県", "境港市"]
  {
    assert Trim(" ") == [];
    TrimOfTrimmed("境港市");
    TrimOfTrimmed("鳥取県");
    assert NonEmptyTrimmed([" "]) == [] by {
      assert [" "][1..] == [];
    }
    assert ["境港市", " "][1..] == [" "];
    assert ["鳥取県", "境港市", " "][1..] == ["境港市", " "];
  }

  /** The heading `149. ばけぞうり` is trimmed already. */
  lemma TrimExampleHeading()
    ensures Trim("149. ばけぞうり") == "149. ばけぞうり"
  {
    TrimOfTrimmed("149. ばけぞうり");
  }

  /** `"149. ばけぞうり"` becomes entry 149 named `ばけぞうり` (NFKC leaves both texts alone). */
  lemma ExtractExample(host: Host, s: Section, pageUrl: string)
    requires s.heading == "149. ばけぞうり"
    requires host.nfkc("149. ばけぞうり") == "149. ばけぞうり"
    requires host.nfkc("ばけぞうり") == "ばけぞうり"
    ensures Extract(host, s, pageUrl).Some?
    ensures Extract(host, s, pageUrl).value.id == 149
    ensures Extract(host, s, pageUrl).value.name == "ばけぞうり"
  {
    TrimExampleHeading();
    ExampleId(host, s);
    ExampleName(host, s);
  }

  lemma ExampleId(host: Host, s: Section)
    requires Trim(s.heading) == "149. ばけぞうり"
    requires host.nfkc("149. ばけぞうり") == "149. ばけぞうり"
    ensures IdOf(host, s) == 149
  {
    HeadingIdExamples();
  }

  lemma ExampleName(host: Host, s: Section)
    requires Trim(s.heading) == "149. ばけぞうり"
    requires host.nfkc("ばけぞうり") == "ばけぞうり"
    ensures NameOf(host, s) == "ばけぞうり"
  {
    StripHeadingExample();
    NoSpaceExampleName();
  }

  lemma NoSpaceExampleName()
    ensures RemoveSpaces("ばけぞうり") == "ばけぞうり"
  {
    RemoveSpacesOfNoSpace("ばけぞうり");
  }

  /** A heading made only of a number leaves no name, so the section gives no entry. */
  lemma ExtractDigitsOnly(host: Host, s: Section, pageUrl: string)
    requires s.heading == "149"
    requires host.nfkc("") == ""
    ensures Extract(host, s, pageUrl).None?
  {
    assert Trim(s.heading) == s.heading by {
      assert NoSpace(s.heading);
    }
    StripHeadingDigitsOnly();
  }

  /** With an NFKC that turns the heading's digits into the numeral of `n`, the id is `n`. */
  lemma IdOfNumberedHeading(host: Host, s: Section, n: nat, rest: string)
    requires host.nfkc(Trim(s.heading)) == Decimal(n) + rest && !StartsWithAsciiDigit(rest)
    ensures IdOf(host, s) == n
  {
    HeadingIdOfNumeral(n, rest);
  }
}
