/**
  Price levels and the orderings of the two sides of the book: the `less`
  functions the two trees are built with (byBestBid, byBestAsk) and the
  three-way comparisons used to find the level at one exact price
  (getAskByPrice, getBidByPrice).
*/
module Orders {

  /** One price level: the aggregate volume resting at one price. */
  datatype Entry = Entry(price: real, volume: real)

  /** The two independently mutable sides of the book. */
  datatype Side = Asks | Bids

  /**
    The bid tree's `less`: a is ordered before b when its price is at least
    b's. It holds between two entries at one price, and fails only when b
    is the strictly better (higher) bid.
  */
  predicate ByBestBid(a: Entry, b: Entry)
    ensures a.price == b.price ==> ByBestBid(a, b)
    ensures !ByBestBid(a, b) <==> b.price > a.price
  {
    a.price >= b.price
  }

  /**
    The ask tree's `less`: a is ordered before b when its price is below
    b's. It never holds between two entries at one price, and holds exactly
    when a is the strictly better (lower) ask.
  */
  predicate ByBestAsk(a: Entry, b: Entry)
    ensures a.price == b.price ==> !ByBestAsk(a, b)
    ensures ByBestAsk(a, b) <==> b.price > a.price
  {
    a.price < b.price
  }

  /** The `less` function each side's tree is created with. */
  predicate Less(side: Side, a: Entry, b: Entry) {
    match side
    case Asks => ByBestAsk(a, b)
    case Bids => ByBestBid(a, b)
  }

  /**
    The strict order in which a side stores its levels: a goes strictly
    before b. This is the strict part of the side's `less`, so two entries
    at one price are never ordered either way: they are the same level
    (replace-on-equal-price, see BidLessNeverEquates).
  */
  predicate Precedes(side: Side, a: Entry, b: Entry) {
    Less(side, a, b) && !Less(side, b, a)
  }

  /** byBestAsk compares prices strictly: it holds exactly when a's price is lower. */
  lemma ByBestAskIsStrict()
    ensures forall a, b :: ByBestAsk(a, b) <==> a.price < b.price
    ensures forall a :: !ByBestAsk(a, a)
    ensures forall a, b :: ByBestAsk(a, b) ==> !ByBestAsk(b, a)
  {
  }

  /** byBestBid is reflexive: it also holds between two entries at one price. */
  lemma ByBestBidIsReflexive()
    ensures forall a, b :: ByBestBid(a, b) <==> a.price >= b.price
    ensures forall a :: ByBestBid(a, a)
    ensures forall a: Entry, b: Entry :: a.price == b.price ==> ByBestBid(a, b) && ByBestBid(b, a)
  {
  }

  /**
    The hazard of the bid tree's `less`: since byBestBid is total, the
    equivalence a tree usually derives from `less`, "neither a < b nor
    b < a", holds of no pair of bid entries, even two at the same price.
    Whether Insert then replaces an existing bid level rests on the tree
    library; this model assumes it does (Precedes).
  */
  lemma BidLessNeverEquates(a: Entry, b: Entry)
    ensures ByBestBid(a, b) || ByBestBid(b, a)
    ensures !(!ByBestBid(a, b) && !ByBestBid(b, a))
  {
  }

  /** The ask side's less is already strict, so its storage order is byBestAsk itself. */
  lemma AskOrderIsByBestAsk(a: Entry, b: Entry)
    ensures Precedes(Asks, a, b) <==> ByBestAsk(a, b)
  {
  }

  /**
    Each side's storage order is a strict total order on prices: ascending
    for asks, descending for bids; entries at equal prices are unordered.
  */
  lemma PrecedesIsStrictTotalOrder(side: Side, a: Entry, b: Entry, c: Entry)
    ensures Precedes(side, a, b) <==> (if side == Asks then a.price < b.price else a.price > b.price)
    ensures !Precedes(side, a, a)
    ensures Precedes(side, a, b) ==> !Precedes(side, b, a)
    ensures Precedes(side, a, b) && Precedes(side, b, c) ==> Precedes(side, a, c)
    ensures a.price != b.price ==> Precedes(side, a, b) || Precedes(side, b, a)
  {
  }

  /**
    The probe used to find the ask level at `price`: negative for an entry
    below the price, zero for the entry at the price, positive above it.
  */
  function GetAskByPrice(price: real): (cmp: Entry -> int)
    ensures forall e :: cmp(e) == -1 <==> e.price < price
    ensures forall e :: cmp(e) == 0 <==> e.price == price
    ensures forall e :: cmp(e) == 1 <==> e.price > price
  {
    (e: Entry) =>
      if e.price < price then -1
      else if e.price > price then 1
      else 0
  }

  /**
    The probe used to find the bid level at `price`: the mirror image of
    GetAskByPrice, negative for an entry above the price and positive below.
  */
  function GetBidByPrice(price: real): (cmp: Entry -> int)
    ensures forall e :: cmp(e) == -1 <==> e.price > price
    ensures forall e :: cmp(e) == 0 <==> e.price == price
    ensures forall e :: cmp(e) == 1 <==> e.price < price
  {
    (e: Entry) =>
      if e.price > price then -1
      else if e.price < price then 1
      else 0
  }

  /** The probe each side's lookups use. */
  function CompareFor(side: Side, price: real): Entry -> int {
    match side
    case Asks => GetAskByPrice(price)
    case Bids => GetBidByPrice(price)
  }

  /**
    Each probe agrees with its own side's order: it is negative exactly for
    the entries stored before the level at `price`, zero exactly at that
    price and positive exactly for the entries stored after it.
  */
  lemma CompareAgreesWithSide(side: Side, price: real, e: Entry, probe: Entry)
    requires probe.price == price
    ensures CompareFor(side, price)(e) < 0 <==> Precedes(side, e, probe)
    ensures CompareFor(side, price)(e) == 0 <==> e.price == price
    ensures CompareFor(side, price)(e) > 0 <==> Precedes(side, probe, e)
  {
  }
}
