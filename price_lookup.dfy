/** The price lookup (`getGamePrice`) with the page fetch and the HTML scrape
    replaced by one abstract function from a slug to what the scrape found. */
module PriceLookup {
  import opened Wrappers
  import opened FetchUtils

  /** What fetching and scraping the page of a slug yields: `None` when the
      request fails (not found or any other error), otherwise the text of
      every price element on the page, in document order. */
  type Scraper = string -> Option<seq<string>>

  /** The scraped texts as the JavaScript array `isStringTuple` is given. */
  function PricesValue(prices: seq<string>): (v: JsValue)
    ensures v.JsArray? && |v.elements| == |prices|
    ensures forall i :: 0 <= i < |prices| ==> v.elements[i] == JsString(prices[i])
  {
    JsArray(seq(|prices|, i requires 0 <= i < |prices| => JsString(prices[i])))
  }

  /** An array of scraped texts is a price tuple exactly when there are two. */
  lemma ScrapedTuple(prices: seq<string>)
    ensures IsStringTuple(PricesValue(prices)) <==> |prices| == 2
  {
    if |prices| == 2 {
      assert PricesValue(prices) == JsArray([JsString(prices[0]), JsString(prices[1])]);
    }
  }

  /** `getGamePrice(gameName)`: nothing for an empty name; otherwise the
      page of the normalised name is scraped, and its prices are returned
      when there are exactly two of them, official first. */
  function GetGamePrice(scrape: Scraper, gameName: string): (r: Option<(string, string)>)
    ensures gameName == [] ==> r == None
    ensures r.Some? <==>
      (gameName != [] && scrape(NormalizeGameName(gameName)).Some?
       && |scrape(NormalizeGameName(gameName)).value| == 2)
    ensures r.Some? ==> scrape(NormalizeGameName(gameName)) == Some([r.value.0, r.value.1])
  {
    if gameName == [] then None
    else
      match scrape(NormalizeGameName(gameName))
      case None => None
      case Some(prices) =>
        ScrapedTuple(prices);
        assert |prices| == 2 ==> prices == [prices[0], prices[1]];
        if IsStringTuple(PricesValue(prices)) then Some((prices[0], prices[1])) else None
  }
}
