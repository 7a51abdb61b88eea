/**
 * The fixed instrument universe: three asset classes, walked in the order
 * bonds, indices, commodities, each with its tickers in report order.
 */
module Catalog {

  datatype AssetClass = Bonds | Indices | Commodities

  /** The iteration order of the catalog, which is also the report's group order. */
  const ClassOrder: seq<AssetClass> := [Bonds, Indices, Commodities]

  /** The search texts of each class, in catalog order. */
  function Tickers(c: AssetClass): seq<string>
  {
    match c
    case Bonds => ["us1y", "us2y", "us3y", "us5y", "us7y", "us10y", "us20y", "us30y"]
    case Indices => ["S&P 500", "Nasdaq", "Shanghai Comp. ", "MOEX Russia", "DXY"]
    case Commodities => ["Gold", "Brent"]
  }

  /** The label the report gives every row of a class. */
  function GroupName(c: AssetClass): string
  {
    match c
    case Bonds => "Bonds"
    case Indices => "Indices"
    case Commodities => "Commodities"
  }

  /** The two bond spreads, each the long tenor's close minus the short tenor's. */
  const Spread10x2 := "10-2"
  const Spread20x5 := "20-5"

  /** One value per asset class, standing for the source's dictionaries keyed by class. */
  datatype PerClass<T> = PerClass(bonds: T, indices: T, commodities: T)
  {
    function Get(c: AssetClass): T
    {
      match c
      case Bonds => bonds
      case Indices => indices
      case Commodities => commodities
    }

    function Set(c: AssetClass, v: T): (r: PerClass<T>)
      ensures r.Get(c) == v
      ensures forall c' :: c' != c ==> r.Get(c') == Get(c')
    {
      match c
      case Bonds => this.(bonds := v)
      case Indices => this.(indices := v)
      case Commodities => this.(commodities := v)
    }
  }

  predicate Distinct<T(==)>(xs: seq<T>)
  {
    forall i, j :: 0 <= i < j < |xs| ==> xs[i] != xs[j]
  }

  /** Every ticker of the catalog */
  function AllTickers(): seq<string>
  {
    Tickers(Bonds) + Tickers(Indices) + Tickers(Commodities)
  }

  /**
   * No ticker is listed twice, not even across classes, and neither spread
   * name is a ticker: the report can hold at most one row per name.
   */
  lemma CatalogDistinct()
    ensures Distinct(AllTickers() + [Spread10x2, Spread20x5])
  {
  }
}
