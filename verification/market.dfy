/** The fixed universe of the script: its six securities and its trading calendar,
    with dates reduced to business-day indices. */
module Market {

  /** The securities the script follows (FAANG plus Tesla). */
  datatype Symbol = META | AMZN | AAPL | NFLX | GOOGL | TSLA

  /** The securities in the order every per-company loop visits them. */
  const Companies: seq<Symbol> := [META, AMZN, AAPL, NFLX, GOOGL, TSLA]

  /** Business days from 2025-04-01 to 2025-04-24 inclusive:
      April 1-4, 7-11, 14-18 and 21-24. */
  const TradingDays: nat := 18

  /** Index of 2025-04-15, the date whose TSLA price is blanked out:
      the eleventh business day from April 1. */
  const GapDate: nat := 10
}
