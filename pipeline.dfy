/**
 * The round trip between the page agent and the background fetcher: what the
 * page shows for each reply the listener can send.
 */
module Pipeline {
  import opened Wrappers
  import opened Strings
  import Background
  import PageAgent

  /**
   * How a listener reply reaches the page: `{success: true, count}`,
   * `{success: false, error}` (its `count` is `undefined`), or no reply at all,
   * which makes the page's `sendMessage` fail.
   */
  function Transmit(reply: Option<Background.Reply>): (d: PageAgent.Delivery)
    ensures d.SendFailed? <==> reply.None?
    ensures d.Delivered? ==> (d.success <==> reply.value.CountReply?)
    ensures d.Delivered? && d.success ==> d.count == PageAgent.Num(reply.value.count as real)
    ensures d.Delivered? && !d.success ==> d.count == PageAgent.NonNumeric
  {
    if reply.None? then PageAgent.SendFailed
    else if reply.value.CountReply? then PageAgent.Delivered(true, PageAgent.Num(reply.value.count as real))
    else PageAgent.Delivered(false, PageAgent.NonNumeric)
  }

  /**
   * For a page with a Scholar link, the citation row shows the fetched count
   * in decimal followed by the source, or "Service unavailable" when the fetch
   * failed.
   */
  lemma RowShowsServedCount(url: string, result: Result<nat, string>)
    requires url != ""
    ensures var row := PageAgent.CreateCitationElement(
        PageAgent.FetchCitationCount(url, Transmit(Some(Background.ToReply(result)))));
      && PageAgent.IsCitationRow(row)
      && (result.Success? ==> row.content == [NatToString(result.value), PageAgent.SourceText])
      && (result.Failure? ==> row.content == [PageAgent.UnavailableText])
  {
  }

  /** The number shown reads back as the count the background served. */
  lemma ShownNumberIsServedCount(url: string, count: nat)
    requires url != ""
    ensures var row := PageAgent.CreateCitationElement(
        PageAgent.FetchCitationCount(url, Transmit(Some(Background.CountReply(count)))));
      DecimalValue(row.content[0]) == count
  {
    DecimalValueOfNatToString(count);
  }
}
