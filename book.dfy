/**
  The order book: two independently mutable sides, the delta handler that
  applies one depth update to them, and the traversal that lays the levels
  out on screen.
*/
module Book {
  import opened Orders
  import opened LevelTree
  import opened Depth

  /** One depth update: the ask side's list of entries and the bid side's. */
  datatype DepthResult = DepthResult(asks: seq<Delta>, bids: seq<Delta>)

  /** The colour a level's price is drawn in: asks red, bids green. */
  datatype Color = Red | Green

  /** One price drawn on screen: its column, its row, the price and its colour. */
  datatype Cell = Cell(x: int, y: int, price: real, color: Color)

  class OrderBook {
    /** The ask levels, in the order the ask tree visits them (ascending price). */
    var asks: seq<Entry>
    /** The bid levels, in the order the bid tree visits them (descending price). */
    var bids: seq<Entry>

    /** Each side is ordered by its own `less`, with unique prices and no empty level. */
    ghost predicate Valid()
      reads this
    {
      SideInvariant(Asks, asks) && SideInvariant(Bids, bids)
    }

    /** NewOrderBook: a book with both sides empty. */
    constructor ()
      ensures Valid()
      ensures asks == [] && bids == []
    {
      asks := [];
      bids := [];
    }

    /**
      The goroutine's body: applies the ask list to the ask side, stopping at
      its first zero-volume entry; its `return` ends only this loop. The bids
      are left as they are.
    */
    method ApplyAsks(ds: seq<Delta>)
      requires Valid()
      modifies this
      ensures Valid()
      ensures asks == ApplySide(Asks, old(asks), ds)
      ensures bids == old(bids)
    {
      var i := 0;
      while i < |ds|
        invariant 0 <= i <= |ds|
        invariant SideInvariant(Asks, asks) && bids == old(bids)
        invariant ApplySide(Asks, asks, ds[i..]) == ApplySide(Asks, old(asks), ds)
      {
        var price, volume := ds[i].price, ds[i].volume;
        ApplySideStep(Asks, asks, ds, i);
        if volume == 0.0 {
          RemovalIsLookupThenDelete(Asks, asks, ds[i]);
          var found := Get(asks, GetAskByPrice(price));
          if found.Some? {
            asks := Delete(Asks, asks, found.value);
          }
          return;
        }
        asks := Insert(Asks, asks, Entry(price, volume));
        i := i + 1;
      }
    }

    /**
      Applies one depth update: the ask list to the ask side (the goroutine,
      here run to completion first), then the bid list to the bid side, each
      stopping at its first zero-volume entry. The ask list touches only the
      asks and the bid list only the bids, and the ask loop stopping early
      does not stop the bid loop.
    */
    method HandleDepthResponse(result: DepthResult)
      requires Valid()
      modifies this
      ensures Valid()
      ensures asks == ApplySide(Asks, old(asks), result.asks)
      ensures bids == ApplySide(Bids, old(bids), result.bids)
    {
      ApplyAsks(result.asks);

      var i := 0;
      while i < |result.bids|
        invariant 0 <= i <= |result.bids|
        invariant SideInvariant(Bids, bids) && asks == ApplySide(Asks, old(asks), result.asks)
        invariant ApplySide(Bids, bids, result.bids[i..]) == ApplySide(Bids, old(bids), result.bids)
      {
        var price, volume := result.bids[i].price, result.bids[i].volume;
        ApplySideStep(Bids, bids, result.bids, i);
        if volume == 0.0 {
          RemovalIsLookupThenDelete(Bids, bids, result.bids[i]);
          var found := Get(bids, GetBidByPrice(price));
          if found.Some? {
            bids := Delete(Bids, bids, found.value);
          }
          return;
        }
        bids := Insert(Bids, bids, Entry(price, volume));
        i := i + 1;
      }
    }

    /**
      The cells render draws, in drawing order: every ask level once, the
      i-th at row y + i of column x, then every bid level once, the i-th at
      row y + i of column x + 10. Asks come out in ascending price, bids in
      descending price.
    */
    method Render(x: int, y: int) returns (cells: seq<Cell>)
      requires Valid()
      ensures |cells| == |asks| + |bids|
      ensures forall i :: 0 <= i < |asks| ==> cells[i] == Cell(x, y + i, asks[i].price, Red)
      ensures forall i :: 0 <= i < |bids| ==> cells[|asks| + i] == Cell(x + 10, y + i, bids[i].price, Green)
      ensures forall i, j :: 0 <= i < j < |asks| ==> cells[i].price < cells[j].price
      ensures forall i, j :: |asks| <= i < j < |cells| ==> cells[i].price > cells[j].price
    {
      cells := [];
      var i := 0;
      while i < |asks|
        invariant 0 <= i <= |asks|
        invariant |cells| == i
        invariant forall k :: 0 <= k < i ==> cells[k] == Cell(x, y + k, asks[k].price, Red)
      {
        cells := cells + [Cell(x, y + i, asks[i].price, Red)];
        i := i + 1;
      }

      var column := x + 10;
      i := 0;
      while i < |bids|
        invariant 0 <= i <= |bids|
        invariant |cells| == |asks| + i
        invariant forall k :: 0 <= k < |asks| ==> cells[k] == Cell(x, y + k, asks[k].price, Red)
        invariant forall k :: 0 <= k < i ==> cells[|asks| + k] == Cell(column, y + k, bids[k].price, Green)
      {
        cells := cells + [Cell(column, y + i, bids[i].price, Green)];
        i := i + 1;
      }

      forall i, j | |asks| <= i < j < |cells| ensures cells[i].price > cells[j].price {
        assert cells[i].price == bids[i - |asks|].price && cells[j].price == bids[j - |asks|].price;
      }
    }
  }

  /**
    Scenario: an ask at (100, 1) followed by a removal at 100 leaves the
    ask side empty.
  */
  lemma AskAddedThenRemoved()
    ensures ApplySide(Asks, [], [Delta(100.0, 1.0), Delta(100.0, 0.0)]) == []
  {
    var ds := [Delta(100.0, 1.0), Delta(100.0, 0.0)];
    assert ds[1..] == [Delta(100.0, 0.0)];
    var one := ApplyDelta(Asks, [], ds[0]);
    assert one == [Entry(100.0, 1.0)];
    CompareIsMonotone(Asks, 100.0, one);
    assert Get(one, CompareFor(Asks, 100.0)) == Some(Entry(100.0, 1.0));
  }

  /**
    Scenario: bids (99, 2), (98, 3), (97, 1) on an empty bid side are stored
    best first, in descending price.
  */
  lemma BidsStoredBestFirst()
    ensures ApplySide(Bids, [], [Delta(99.0, 2.0), Delta(98.0, 3.0), Delta(97.0, 1.0)])
         == [Entry(99.0, 2.0), Entry(98.0, 3.0), Entry(97.0, 1.0)]
  {
    var ds := [Delta(99.0, 2.0), Delta(98.0, 3.0), Delta(97.0, 1.0)];
    var s1 := [Entry(99.0, 2.0)];
    var s2 := [Entry(99.0, 2.0), Entry(98.0, 3.0)];
    assert ApplyDelta(Bids, [], ds[0]) == s1;
    assert ApplyDelta(Bids, s1, ds[1]) == s2 by {
      assert s1[1..] == [];
    }
    assert ApplyDelta(Bids, s2, ds[2]) == s2 + [Entry(97.0, 1.0)] by {
      assert s2[1..] == [Entry(98.0, 3.0)];
      assert s2[1..][1..] == [];
    }
    assert ds[1..] == [ds[1], ds[2]] && ds[1..][1..] == [ds[2]] && ds[1..][1..][1..] == [];
  }
}
