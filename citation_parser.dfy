/**
 * The citation-count extractor of the background fetcher.
 *
 * The extractor looks for the pattern
 *   href="[^"]*cites=[^"]*"[^>]*>([^<]*(\d+)[^<]*)<\/a>
 * at the leftmost position where it matches, takes the first run of digits of
 * the link text (the captured group) and returns its decimal value; when the
 * pattern matches nowhere it returns 0.
 *
 * `MatchesWith` spells out the language of the fixed pattern; `AnchorAt` and
 * `FirstAnchor` are a hand-written scanner for it, proved sound and complete
 * against `MatchesWith`.
 */
module CitationParser {
  import opened Wrappers
  import opened Strings

  const HrefOpen: string := "href=\""
  const CitesParam: string := "cites="
  const AnchorClose: string := "</a>"

  /**
   * The pattern matches at `i`: `href="` at `i`, the quoted value up to the
   * closing quote at `q` holds no quote and holds `cites=`, the text between
   * the quote and the `>` at `g` holds no `>`, and the link text between `g`
   * and the `<` at `l` holds no `<`, holds a digit and is followed by `</a>`.
   */
  ghost predicate MatchesWith(html: string, i: int, q: int, g: int, l: int) {
    && 0 <= i && i + |HrefOpen| <= q < g < l <= |html|
    && OccursAt(html, HrefOpen, i)
    && html[q] == '"'
    && Excludes(html[i + |HrefOpen|..q], '"')
    && Occurs(CitesParam, html[i + |HrefOpen|..q])
    && html[g] == '>'
    && Excludes(html[q + 1..g], '>')
    && Excludes(html[g + 1..l], '<')
    && HasDigit(html[g + 1..l])
    && OccursAt(html, AnchorClose, l)
  }

  /** The pattern matches at `i` and captures the link text `text`. */
  ghost predicate MatchesAt(html: string, i: int, text: string) {
    exists q, g, l :: MatchesWith(html, i, q, g, l) && text == html[g + 1..l]
  }

  /**
   * `text[a..b]` is the first run of digits of `text`, as the pattern `(\d+)`
   * finds it: no digit before `a`, digits from `a` to `b`, and no digit at `b`.
   */
  ghost predicate FirstRunAt(text: string, a: int, b: int) {
    && 0 <= a < b <= |text|
    && (forall j :: 0 <= j < a ==> !IsDigit(text[j]))
    && (forall j :: a <= j < b ==> IsDigit(text[j]))
    && (b == |text| || !IsDigit(text[b]))
  }

  /** Scanner: tries the pattern at position `i` only. */
  function AnchorAt(html: string, i: nat): Option<string>
    requires i <= |html|
  {
    if !OccursAt(html, HrefOpen, i) then None
    else
      var q := NextIndex(html, '"', i + |HrefOpen|);
      if q == |html| || !Contains(html[i + |HrefOpen|..q], CitesParam) then None
      else
        var g := NextIndex(html, '>', q + 1);
        if g == |html| then None
        else
          var l := NextIndex(html, '<', g + 1);
          var text := html[g + 1..l];
          if l == |html| || !OccursAt(html, AnchorClose, l) || NextDigit(text, 0) == |text| then None
          else Some(text)
  }

  /** Whatever the scanner accepts at `i` is a match of the pattern at `i`. */
  lemma AnchorAtSound(html: string, i: nat, text: string)
    requires i <= |html|
    requires AnchorAt(html, i) == Some(text)
    ensures MatchesAt(html, i, text)
  {
    var q := NextIndex(html, '"', i + |HrefOpen|);
    var g := NextIndex(html, '>', q + 1);
    var l := NextIndex(html, '<', g + 1);
    var t := html[g + 1..l];
    assert IsDigit(t[NextDigit(t, 0)]);
    assert MatchesWith(html, i, q, g, l);
  }

  /** Every match of the pattern at `i` is found by the scanner at `i`. */
  lemma AnchorAtComplete(html: string, i: nat, q: int, g: int, l: int)
    requires i <= |html|
    requires MatchesWith(html, i, q, g, l)
    ensures AnchorAt(html, i) == Some(html[g + 1..l])
  {
    assert NextIndex(html, '"', i + |HrefOpen|) == q;
    assert NextIndex(html, '>', q + 1) == g;
    assert html[l] == AnchorClose[0];
    assert NextIndex(html, '<', g + 1) == l;
    var t := html[g + 1..l];
    var d :| 0 <= d < |t| && IsDigit(t[d]);
    assert NextDigit(t, 0) <= d;
  }

  /** The scanner at `i` accepts exactly the matches of the pattern at `i`. */
  lemma AnchorAtIffMatches(html: string, i: nat, text: string)
    requires i <= |html|
    ensures AnchorAt(html, i) == Some(text) <==> MatchesAt(html, i, text)
  {
    if AnchorAt(html, i) == Some(text) {
      AnchorAtSound(html, i, text);
    }
    if MatchesAt(html, i, text) {
      var q, g, l :| MatchesWith(html, i, q, g, l) && text == html[g + 1..l];
      AnchorAtComplete(html, i, q, g, l);
    }
  }

  datatype Anchor = Anchor(at: nat, text: string)

  /** The leftmost position at or after `from` where the scanner succeeds. */
  function FirstAnchor(html: string, from: nat): (r: Option<Anchor>)
    requires from <= |html|
    decreases |html| - from
    ensures r.Some? ==> from <= r.value.at <= |html| && AnchorAt(html, r.value.at) == Some(r.value.text)
    ensures forall j :: from <= j <= |html| && (r.None? || j < r.value.at) ==> AnchorAt(html, j).None?
  {
    match AnchorAt(html, from)
    case Some(text) => Some(Anchor(from, text))
    case None => if from == |html| then None else FirstAnchor(html, from + 1)
  }

  /** The scanner's leftmost success is the anchor `FirstAnchor` returns. */
  lemma FirstAnchorAt(html: string, from: nat, i: nat, text: string)
    requires from <= i <= |html|
    requires AnchorAt(html, i) == Some(text)
    requires forall j :: from <= j < i ==> AnchorAt(html, j).None?
    ensures FirstAnchor(html, from) == Some(Anchor(i, text))
  {
  }

  /** The first run of digits of the link text (`linkText.match(/(\d+)/)`). */
  function FirstDigitRun(text: string): (d: string)
    ensures AllDigits(d)
    ensures HasDigit(text) <==> d != []
  {
    var a := NextDigit(text, 0);
    text[a..DigitRunEnd(text, a)]
  }

  /** The run `FirstDigitRun` picks is the one `FirstRunAt` describes. */
  lemma FirstDigitRunIsFirstRun(text: string, a: int, b: int)
    requires FirstRunAt(text, a, b)
    ensures FirstDigitRun(text) == text[a..b]
  {
    assert IsDigit(text[a]);
    assert NextDigit(text, 0) == a;
    assert DigitRunEnd(text, a) == b;
  }

  /** `parseCitationCount(html)`. */
  function ParseCitationCount(html: string): (n: nat)
    ensures n > 0 ==> exists i, text :: MatchesAt(html, i, text)
  {
    match FirstAnchor(html, 0)
    case None => 0
    case Some(anchor) =>
      AnchorAtSound(html, anchor.at, anchor.text);
      DecimalValue(FirstDigitRun(anchor.text))
  }

  /** The link text of every match has a first run of digits. */
  lemma MatchTextHasFirstRun(html: string, i: int, text: string) returns (a: nat, b: nat)
    requires MatchesAt(html, i, text)
    ensures FirstRunAt(text, a, b)
  {
    a := NextDigit(text, 0);
    b := DigitRunEnd(text, a);
  }

  /** Where the pattern matches nowhere, the count is 0. */
  lemma ParseWithoutAnchor(html: string)
    requires forall i, text :: !MatchesAt(html, i, text)
    ensures ParseCitationCount(html) == 0
  {
    match FirstAnchor(html, 0)
    case None =>
    case Some(anchor) =>
      AnchorAtSound(html, anchor.at, anchor.text);
  }

  /**
   * Where the leftmost match is at `i` with link text `text`, the count is the
   * value of the first run of digits of `text`.
   */
  lemma ParseFirstAnchor(html: string, i: nat, text: string, a: nat, b: nat)
    requires MatchesAt(html, i, text)
    requires forall j, u :: 0 <= j < i ==> !MatchesAt(html, j, u)
    requires FirstRunAt(text, a, b)
    ensures ParseCitationCount(html) == DecimalValue(text[a..b])
  {
    AnchorAtIffMatches(html, i, text);
    forall j | 0 <= j < i
      ensures AnchorAt(html, j).None?
    {
      if AnchorAt(html, j).Some? {
        AnchorAtSound(html, j, AnchorAt(html, j).value);
      }
    }
    FirstAnchorAt(html, 0, i, text);
    FirstDigitRunIsFirstRun(text, a, b);
  }

  /** A non-zero count comes from some match of the pattern. */
  lemma ParsePositiveHasAnchor(html: string) returns (i: nat, text: string)
    requires ParseCitationCount(html) > 0
    ensures MatchesAt(html, i, text)
    ensures forall j, u :: 0 <= j < i ==> !MatchesAt(html, j, u)
  {
    var anchor := FirstAnchor(html, 0).value;
    i, text := anchor.at, anchor.text;
    AnchorAtSound(html, i, text);
    forall j, u | 0 <= j < i
      ensures !MatchesAt(html, j, u)
    {
      AnchorAtIffMatches(html, j, u);
    }
  }

  /**
   * A well-formed citation link: `html` is `pre`, then `href="`, a quoted
   * value holding `cites=`, attributes without `>`, `>`, link text without `<`,
   * `</a>` and `post`, where `pre` holds no `href="`.
   */
  ghost predicate CitationLink(html: string, pre: string, value: string, attrs: string, text: string, post: string) {
    && html == pre + HrefOpen + value + "\"" + attrs + ">" + text + AnchorClose + post
    && !Occurs(HrefOpen, pre)
    && Excludes(value, '"') && Occurs(CitesParam, value)
    && Excludes(attrs, '>')
    && Excludes(text, '<')
  }

  /** No match of the pattern starts inside `pre`. */
  lemma NoMatchInPrefix(html: string, pre: string, value: string, attrs: string, text: string, post: string)
    requires CitationLink(html, pre, value, attrs, text, post)
    ensures forall j, u :: 0 <= j < |pre| ==> !MatchesAt(html, j, u)
  {
    forall j | 0 <= j < |pre|
      ensures !OccursAt(html, HrefOpen, j)
    {
      assert html[|pre|] == 'h';
      if j + |HrefOpen| <= |pre| {
        assert html[j..j + |HrefOpen|] == pre[j..j + |HrefOpen|];
        assert !OccursAt(pre, HrefOpen, j);
      } else if j + |HrefOpen| <= |html| {
        assert html[j..j + |HrefOpen|][|pre| - j] == html[|pre|];
      }
    }
  }

  /**
   * The count of a page whose first citation link is well formed is the value
   * of the first run of digits of that link's text.
   */
  lemma ParseCitationLink(html: string, pre: string, value: string, attrs: string, text: string, post: string, a: nat, b: nat)
    requires CitationLink(html, pre, value, attrs, text, post)
    requires FirstRunAt(text, a, b)
    ensures ParseCitationCount(html) == DecimalValue(text[a..b])
  {
    var i := |pre|;
    var q := i + |HrefOpen| + |value|;
    var g := q + 1 + |attrs|;
    var l := g + 1 + |text|;
    assert html[i..i + |HrefOpen|] == HrefOpen;
    assert html[i + |HrefOpen|..q] == value;
    assert html[q + 1..g] == attrs;
    assert html[g + 1..l] == text;
    assert html[l..l + |AnchorClose|] == AnchorClose;
    assert IsDigit(text[a]);
    assert MatchesWith(html, i, q, g, l);
    NoMatchInPrefix(html, pre, value, attrs, text, post);
    ParseFirstAnchor(html, i, text, a, b);
  }

  /** A citation link whose text is the decimal notation of `n` gives `n`. */
  lemma ParseNumericLink(html: string, pre: string, value: string, attrs: string, n: nat, post: string)
    requires CitationLink(html, pre, value, attrs, NatToString(n), post)
    ensures ParseCitationCount(html) == n
  {
    var text := NatToString(n);
    assert FirstRunAt(text, 0, |text|);
    assert text[0..|text|] == text;
    ParseCitationLink(html, pre, value, attrs, text, post, 0, |text|);
    DecimalValueOfNatToString(n);
  }

  /** A page that is just one citation link `<a href="value">text</a>`. */
  lemma ParseSingleLink(value: string, text: string, a: nat, b: nat)
    requires Excludes(value, '"') && Occurs(CitesParam, value)
    requires Excludes(text, '<') && FirstRunAt(text, a, b)
    ensures ParseCitationCount("<a href=\"" + value + "\">" + text + "</a>") == DecimalValue(text[a..b])
  {
    var html := "<a href=\"" + value + "\">" + text + "</a>";
    assert "<a href=\"" == "<a " + HrefOpen;
    assert "\">" == "\"" + "" + ">";
    assert html == "<a " + HrefOpen + value + "\"" + "" + ">" + text + AnchorClose + "";
    assert CitationLink(html, "<a ", value, "", text, "");
    ParseCitationLink(html, "<a ", value, "", text, "", a, b);
  }

  /** Link text "Cited by 42" gives 42. */
  lemma CitedBy42()
    ensures ParseCitationCount("<a href=\"" + "/scholar?cites=123" + "\">" + "Cited by 42" + "</a>") == 42
  {
    var value, text := "/scholar?cites=123", "Cited by 42";
    assert value[9..15] == CitesParam;
    assert OccursAt(value, CitesParam, 9);
    assert FirstRunAt(text, 9, 11);
    assert text[9..11] == "42" && "42"[..1] == "4" && "4"[..0] == [];
    ParseSingleLink(value, text, 9, 11);
  }

  /** Only the first run counts: link text "1,234" gives 1. */
  lemma GroupedDigitsGiveFirstGroup()
    ensures ParseCitationCount("<a href=\"" + "/scholar?cites=9" + "\">" + "1,234" + "</a>") == 1
  {
    var value, text := "/scholar?cites=9", "1,234";
    assert value[9..15] == CitesParam;
    assert OccursAt(value, CitesParam, 9);
    assert FirstRunAt(text, 0, 1);
    assert text[0..1] == "1" && "1"[..0] == [];
    ParseSingleLink(value, text, 0, 1);
  }
}
