/**
 * The page agent that runs on arXiv pages. The DOM is abstracted: the page's
 * metadata table is a sequence of rows, a row is a value (its id, the text of
 * its label cell if it has one, the texts of its content spans), and the
 * message round trip to the background fetcher is an injected `Delivery`.
 */
module PageAgent {
  import opened Wrappers
  import opened Strings

  const ArxivHost: string := "arxiv.org"
  const AbstractPath: string := "/abs/"
  const CounterId: string := "arxiv-citation-counter"
  const LoadingId: string := "arxiv-citation-loading"
  const CitationsLabel: string := "Citations:"
  const UnavailableText: string := "Service unavailable"
  const SourceText: string := " (Google Scholar)"
  const LoadingText: string := "Loading..."
  const CiteAsLabel: string := "Cite as:"

  datatype Location = Location(hostname: string, pathname: string)

  /** A table row: its id, the text of its label cell (None: no label cell), the texts of its content spans. */
  datatype Row = Row(id: string, labelText: Option<string>, content: seq<string>)

  /**
   * A JavaScript value in the count position: `null`, a finite number, or
   * anything else (`undefined`, `NaN`, an infinity, a string, an object).
   */
  datatype JsValue = Null | Num(x: real) | NonNumeric

  /** What the message round trip yields: it throws, or a reply arrives. */
  datatype Delivery = SendFailed | Delivered(success: bool, count: JsValue)

  /** `Number.isInteger(count) && count >= 0 ? count : 0`. */
  function Sanitize(count: JsValue): (n: nat)
    ensures count.Num? && count.x == count.x.Floor as real && count.x >= 0.0 ==> n as real == count.x
    ensures !(count.Num? && count.x == count.x.Floor as real && count.x >= 0.0) ==> n == 0
  {
    match count
    case Num(x) => if x == x.Floor as real && x >= 0.0 then x.Floor else 0
    case _ => 0
  }

  /** A citation row as the agent builds it: its id and its label. */
  predicate IsCitationRow(row: Row) {
    row.id == CounterId && row.labelText == Some(CitationsLabel)
  }

  /** `createCitationElement(count)`. */
  function CreateCitationElement(count: JsValue): (row: Row)
    ensures IsCitationRow(row)
    ensures count.Null? ==> row.content == [UnavailableText]
    ensures !count.Null? ==>
      && |row.content| == 2
      && AllDigits(row.content[0])
      && DecimalValue(row.content[0]) == Sanitize(count)
      && row.content[0] != []
      && (row.content[0] == "0" || row.content[0][0] != '0')
      && row.content[1] == SourceText
  {
    if count.Null? then Row(CounterId, Some(CitationsLabel), [UnavailableText])
    else
      var shown := Sanitize(count);
      DecimalValueOfNatToString(shown);
      Row(CounterId, Some(CitationsLabel), [NatToString(shown), SourceText])
  }

  /** `createLoadingElement()`. */
  function CreateLoadingElement(): (row: Row)
    ensures row.id == LoadingId && !IsCitationRow(row)
    ensures row.labelText == Some(CitationsLabel) && row.content == [LoadingText]
  {
    Row(LoadingId, Some(CitationsLabel), [LoadingText])
  }

  /** `fetchCitationCount(scholarUrl)` of the page agent: the reply's count, or `null`. */
  function FetchCitationCount(url: string, delivery: Delivery): (count: JsValue)
    ensures url == "" || delivery.SendFailed? || !delivery.success ==> count == Null
    ensures url != "" && delivery.Delivered? && delivery.success ==> count == delivery.count
  {
    if url == "" then Null
    else match delivery
      case SendFailed => Null
      case Delivered(success, count) => if success then count else Null
  }

  /** A row whose label cell text contains "Cite as:". */
  ghost predicate IsCiteAsRow(row: Row) {
    row.labelText.Some? && Occurs(CiteAsLabel, row.labelText.value)
  }

  /** What the table holds once the counter has finished: the old rows, then one citation row. */
  function CounterRows(rows: seq<Row>, scholarUrl: Option<string>, delivery: Delivery): seq<Row> {
    var count := if scholarUrl.None? then Null else FetchCitationCount(scholarUrl.value, delivery);
    rows + [CreateCitationElement(count)]
  }

  /**
   * Once the counter has finished, the old rows are still there, unchanged and
   * in order, followed by exactly one citation row and no loading row; it is
   * the error row when there is no Scholar link.
   */
  lemma CounterAppendsOneCitationRow(rows: seq<Row>, scholarUrl: Option<string>, delivery: Delivery)
    ensures var after := CounterRows(rows, scholarUrl, delivery);
      && |after| == |rows| + 1
      && after[..|rows|] == rows
      && IsCitationRow(after[|rows|])
      && after[|rows|].id != LoadingId
      && (scholarUrl.None? ==> after[|rows|].content == [UnavailableText])
  {
  }

  /** The row shows "Service unavailable" when the round trip throws or the reply reports failure. */
  lemma FailedReplyShowsUnavailable(rows: seq<Row>, url: string, delivery: Delivery)
    requires delivery.SendFailed? || !delivery.success
    ensures CounterRows(rows, Some(url), delivery)[|rows|].content == [UnavailableText]
  {
  }

  /** A non-negative integer count is shown as is. */
  lemma SanitizeKeepsCounts(n: nat)
    ensures Sanitize(Num(n as real)) == n
  {
  }

  /** A negative or fractional count is shown as 0. */
  lemma SanitizeRejectsOthers()
    ensures Sanitize(Num(-3.0)) == 0 && Sanitize(Num(2.5)) == 0 && Sanitize(NonNumeric) == 0
  {
  }

  /** `rows` without the row at `k`: what `remove()` does to a child element. */
  function RemoveAt(rows: seq<Row>, k: nat): (r: seq<Row>)
    requires k < |rows|
    ensures |r| == |rows| - 1
    ensures forall j :: 0 <= j < k ==> r[j] == rows[j]
    ensures forall j :: k <= j < |r| ==> r[j] == rows[j + 1]
  {
    rows[..k] + rows[k + 1..]
  }

  /**
   * The content script's object. `location` stands for `window.location`,
   * `scholarLink` for the `href` of the page's `a.cite-google-scholar` link
   * (None: no such link), and `metatable` for the rows of the page's metadata
   * table (None: the page has none), the one piece of the page it changes.
   */
  class ArxivCitationCounter {
    const location: Location
    const scholarLink: Option<string>
    var metatable: Option<seq<Row>>

    /** The script runs `init` as soon as the object is made. */
    constructor(location: Location, scholarLink: Option<string>, metatable: Option<seq<Row>>, delivery: Delivery)
      ensures this.location == location && this.scholarLink == scholarLink
      ensures !IsArxivPage() || metatable.None? ==> this.metatable == metatable
      ensures IsArxivPage() && metatable.Some? ==>
        this.metatable == Some(CounterRows(metatable.value, FindGoogleScholarLink(), delivery))
    {
      this.location := location;
      this.scholarLink := scholarLink;
      this.metatable := metatable;
      new;
      Init(delivery);
    }

    /** `isArxivPage()`. */
    predicate IsArxivPage()
      ensures IsArxivPage() <==> location.hostname == ArxivHost && Occurs(AbstractPath, location.pathname)
    {
      location.hostname == ArxivHost && Contains(location.pathname, AbstractPath)
    }

    /** `findGoogleScholarLink()`: the link's `href` when there is a link with a non-empty one. */
    function FindGoogleScholarLink(): (url: Option<string>)
      ensures url.Some? <==> scholarLink.Some? && scholarLink.value != ""
      ensures url.Some? ==> url == scholarLink
    {
      if scholarLink.Some? && scholarLink.value != "" then scholarLink else None
    }

    /** `init()`: the counter runs only on an arXiv abstract page (once the page has loaded). */
    method Init(delivery: Delivery)
      modifies this
      ensures !IsArxivPage() ==> metatable == old(metatable)
      ensures IsArxivPage() ==> metatable == (if old(metatable).None? then None
        else Some(CounterRows(old(metatable).value, FindGoogleScholarLink(), delivery)))
    {
      if IsArxivPage() {
        ghost var loadingView := AddCitationCounter(delivery);
      }
    }

    /** `findCiteAsField()`: the position of the first row labelled "Cite as:", if any. */
    method FindCiteAsField() returns (r: Option<nat>)
      ensures metatable.None? ==> r.None?
      ensures r.Some? ==>
        && metatable.Some? && r.value < |metatable.value|
        && IsCiteAsRow(metatable.value[r.value])
        && (forall j :: 0 <= j < r.value ==> !IsCiteAsRow(metatable.value[j]))
      ensures r.None? && metatable.Some? ==> forall j :: 0 <= j < |metatable.value| ==> !IsCiteAsRow(metatable.value[j])
    {
      if metatable.None? {
        return None;
      }
      var rows := metatable.value;
      var i := 0;
      while i < |rows|
        invariant 0 <= i <= |rows|
        invariant forall j :: 0 <= j < i ==> !IsCiteAsRow(rows[j])
      {
        var labelText := rows[i].labelText;
        if labelText.Some? && Contains(labelText.value, CiteAsLabel) {
          return Some(i);
        }
        i := i + 1;
      }
      return None;
    }

    /**
     * `addCitationCounter()`. Without a metadata table nothing changes.
     * Otherwise a loading row is appended (`loadingView` is the table while the
     * reply is awaited); then the loading row is removed and one citation row
     * is appended: an error row when there is no Scholar link.
     */
    method AddCitationCounter(delivery: Delivery) returns (ghost loadingView: Option<seq<Row>>)
      modifies this
      ensures old(metatable).None? ==> metatable == None && loadingView == None
      ensures old(metatable).Some? ==>
        && loadingView == Some(old(metatable).value + [CreateLoadingElement()])
        && metatable == Some(CounterRows(old(metatable).value, FindGoogleScholarLink(), delivery))
    {
      if metatable.None? {
        return None;
      }
      var rows := metatable.value;
      var loading := CreateLoadingElement();
      var at := |rows|;
      metatable := Some(rows + [loading]);
      loadingView := metatable;
      assert RemoveAt(rows + [loading], at) == rows;

      var scholarUrl := FindGoogleScholarLink();
      if scholarUrl.None? {
        metatable := Some(RemoveAt(metatable.value, at));
        var errorElement := CreateCitationElement(Null);
        metatable := Some(metatable.value + [errorElement]);
        return;
      }

      var citationCount := FetchCitationCount(scholarUrl.value, delivery);
      var citationElement := CreateCitationElement(citationCount);
      metatable := Some(RemoveAt(metatable.value, at));
      metatable := Some(metatable.value + [citationElement]);
    }
  }
}
