/** The deal tracker of dashboard.py: a list of deals that only grows, and a
    summary that reports how many there are. */
module Deals {

  const TotalDealsKey: string := "total_deals"

  /** `Dashboard`; a deal is whatever record the caller hands in. */
  class Dashboard<Deal> {
    var deals: seq<Deal>

    /** `__init__`: no deals yet. */
    constructor ()
      ensures deals == []
    {
      deals := [];
    }

    /** `add_deal`: the deal goes at the end; the earlier ones stay as they were. */
    method AddDeal(deal: Deal)
      modifies this
      ensures deals == old(deals) + [deal]
    {
      deals := deals + [deal];
    }

    /** `summary`: a one-entry dictionary holding the number of deals. */
    function Summary(): (stats: map<string, int>)
      reads this
      ensures stats.Keys == {TotalDealsKey}
      ensures stats[TotalDealsKey] == |deals|
    {
      map[TotalDealsKey := |deals|]
    }
  }

  /** How app.py uses the dashboard: a fresh one, one `add_deal` per listing,
      then `summary`, which reports one deal per listing. */
  method TrackDeals<Deal>(listings: seq<Deal>) returns (stats: map<string, int>)
    ensures stats.Keys == {TotalDealsKey}
    ensures stats[TotalDealsKey] == |listings|
  {
    var dashboard := new Dashboard<Deal>();
    for i := 0 to |listings|
      invariant dashboard.deals == listings[..i]
    {
      dashboard.AddDeal(listings[i]);
    }
    assert listings[..|listings|] == listings;
    stats := dashboard.Summary();
  }
}
