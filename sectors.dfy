/**
 * The fixed sector baskets (`SECTORS`) and the sheet header (`HEADER`). The
 * Yahoo-based scripts and the Twelve Data script use the same baskets except
 * for the crypto pair notation ("BTC-USD" against "BTC/USD").
 */
module Sectors {

  /** One constituent of a basket: a ticker and its relative weight. */
  datatype Holding = Holding(ticker: string, weight: real)

  type Basket = seq<Holding>

  predicate PositiveWeights(b: Basket) { forall i :: 0 <= i < |b| ==> b[i].weight > 0.0 }

  const NumSectors := 10

  /** `list(SECTORS)`: the sector names in header order. */
  const SectorNames: seq<string> := [
    "Tech & Innovation", "Energy & Materials", "Precious Metals", "Crypto & Digital Assets",
    "Fixed Income", "Consumer", "Health & Biotech", "Real Assets", "Agriculture", "Cash / Liquidity"]

  /** `HEADER`: key, notes, one column per sector, the two picks and the average. */
  const Header: seq<string> := ["Year-Month", "Notes"] + SectorNames + ["Top #1", "Top #2", "Average Return %"]

  /** The number of columns of a data row. */
  const Width := 5 + NumSectors

  /** `SECTORS.values()` of the Yahoo Finance scripts. */
  const YahooBaskets: seq<Basket> := [
    [Holding("XLK", 0.5), Holding("SOXX", 0.5)],
    [Holding("XLE", 0.5), Holding("XME", 0.5)],
    [Holding("GLD", 0.6), Holding("GDX", 0.4)],
    [Holding("BTC-USD", 0.6), Holding("ETH-USD", 0.4)],
    [Holding("AGG", 0.7), Holding("IEF", 0.3)],
    [Holding("XLY", 0.6), Holding("XLP", 0.4)],
    [Holding("XLV", 0.6), Holding("XBI", 0.4)],
    [Holding("VNQ", 0.6), Holding("XLU", 0.4)],
    [Holding("DBA", 1.0)],
    [Holding("BIL", 1.0)]]

  /** `SECTORS.values()` of the Twelve Data script. */
  const TwelveDataBaskets: seq<Basket> := [
    [Holding("XLK", 0.5), Holding("SOXX", 0.5)],
    [Holding("XLE", 0.5), Holding("XME", 0.5)],
    [Holding("GLD", 0.6), Holding("GDX", 0.4)],
    [Holding("BTC/USD", 0.6), Holding("ETH/USD", 0.4)],
    [Holding("AGG", 0.7), Holding("IEF", 0.3)],
    [Holding("XLY", 0.6), Holding("XLP", 0.4)],
    [Holding("XLV", 0.6), Holding("XBI", 0.4)],
    [Holding("VNQ", 0.6), Holding("XLU", 0.4)],
    [Holding("DBA", 1.0)],
    [Holding("BIL", 1.0)]]

  /** A basket table as the scripts use it: one basket per sector, every weight positive. */
  predicate WellFormedBaskets(baskets: seq<Basket>)
  {
    |baskets| == NumSectors && forall i :: 0 <= i < |baskets| ==> PositiveWeights(baskets[i])
  }

  /** The index of "Crypto & Digital Assets", the one sector whose tickers the providers spell differently. */
  const CryptoSector := 3

  /**
   * Both providers' tables are well formed and have the same weights; they
   * are the same baskets except that every crypto ticker is spelled
   * differently. The header is the key and notes columns, the sector names
   * in basket order, then the two picks and the average.
   */
  lemma BasketTables()
    ensures |SectorNames| == NumSectors && |Header| == Width
    ensures Header[..2] == ["Year-Month", "Notes"]
    ensures Header[2..2 + NumSectors] == SectorNames
    ensures Header[2 + NumSectors..] == ["Top #1", "Top #2", "Average Return %"]
    ensures forall i :: 0 <= i < NumSectors ==> Header[2 + i] == SectorNames[i]
    ensures WellFormedBaskets(YahooBaskets) && WellFormedBaskets(TwelveDataBaskets)
    ensures forall i :: 0 <= i < NumSectors ==>
      |YahooBaskets[i]| == |TwelveDataBaskets[i]| &&
      forall j :: 0 <= j < |YahooBaskets[i]| ==> YahooBaskets[i][j].weight == TwelveDataBaskets[i][j].weight
    ensures forall i :: 0 <= i < NumSectors && i != CryptoSector ==> YahooBaskets[i] == TwelveDataBaskets[i]
    ensures forall j :: 0 <= j < |YahooBaskets[CryptoSector]| ==>
      YahooBaskets[CryptoSector][j].ticker != TwelveDataBaskets[CryptoSector][j].ticker
  {
    assert Header[..2] == ["Year-Month", "Notes"];
    assert Header[2..2 + NumSectors] == SectorNames;
  }
}
