/**
  What one side's list of a depth update does to that side. Each entry of
  the list carries the new absolute volume at one price: volume 0 removes
  the level at that price, any other volume sets it. As written, the loop
  over a side's list stops at the first zero-volume entry (ApplySide); the
  evidently intended behaviour applies every entry (ApplyAll).
*/
module Depth {
  import opened Orders
  import opened LevelTree

  /** One (price, volume) entry of a depth update, already parsed. */
  datatype Delta = Delta(price: real, volume: real)

  /** A side as the book keeps it: ordered, and no level with volume 0. */
  ghost predicate SideInvariant(side: Side, s: seq<Entry>) {
    && Ordered(side, s)
    && forall i :: 0 <= i < |s| ==> s[i].volume != 0.0
  }

  /**
    One entry as the loop body handles it: a zero volume looks the price up
    with the side's probe and deletes the level found; any other volume
    inserts the entry. Either way no level at another price changes.
  */
  function ApplyDelta(side: Side, s: seq<Entry>, d: Delta): (r: seq<Entry>)
    requires Ordered(side, s)
    ensures Ordered(side, r)
    ensures d.volume == 0.0 ==> forall x :: x in r <==> x in s && x.price != d.price
    ensures d.volume != 0.0 ==>
      forall x :: x in r <==> x == Entry(d.price, d.volume) || (x in s && x.price != d.price)
    ensures SideInvariant(side, s) ==> SideInvariant(side, r)
  {
    if d.volume == 0.0 then
      CompareIsMonotone(side, d.price, s);
      match Get(s, CompareFor(side, d.price))
      case Some(e) =>
        CompareAgreesWithSide(side, d.price, e, e);
        Delete(side, s, e)
      case None =>
        assert forall x :: x in s ==> x.price != d.price by {
          forall x | x in s ensures x.price != d.price {
            CompareAgreesWithSide(side, d.price, x, Entry(d.price, x.volume));
          }
        }
        s
    else
      Insert(side, s, Entry(d.price, d.volume))
  }

  /**
    One side's loop as written: entries are applied in order until the
    first zero-volume entry, which is applied and then ends the loop.
  */
  function ApplySide(side: Side, s: seq<Entry>, ds: seq<Delta>): (r: seq<Entry>)
    requires Ordered(side, s)
    ensures Ordered(side, r)
    ensures SideInvariant(side, s) ==> SideInvariant(side, r)
    decreases |ds|
  {
    if ds == [] then s
    else if ds[0].volume == 0.0 then ApplyDelta(side, s, ds[0])
    else ApplySide(side, ApplyDelta(side, s, ds[0]), ds[1..])
  }

  /** Every entry of the list applied in order, a removal not ending the list. */
  function ApplyAll(side: Side, s: seq<Entry>, ds: seq<Delta>): (r: seq<Entry>)
    requires Ordered(side, s)
    ensures Ordered(side, r)
    ensures SideInvariant(side, s) ==> SideInvariant(side, r)
    decreases |ds|
  {
    if ds == [] then s
    else ApplyAll(side, ApplyDelta(side, s, ds[0]), ds[1..])
  }

  /** The position of the first zero-volume entry, or the length when there is none. */
  function FirstRemoval(ds: seq<Delta>): (k: nat)
    ensures k <= |ds|
    ensures forall i :: 0 <= i < k ==> ds[i].volume != 0.0
    ensures k < |ds| ==> ds[k].volume == 0.0
  {
    if ds == [] then 0
    else if ds[0].volume == 0.0 then 0
    else 1 + FirstRemoval(ds[1..])
  }

  /**
    One turn of a side's loop: at a zero-volume entry the rest of the list
    is that entry's removal alone, at any other the entry is applied and the
    loop goes on with the next.
  */
  lemma ApplySideStep(side: Side, s: seq<Entry>, ds: seq<Delta>, i: nat)
    requires Ordered(side, s) && i < |ds|
    ensures ds[i].volume == 0.0 ==> ApplySide(side, s, ds[i..]) == ApplyDelta(side, s, ds[i])
    ensures ds[i].volume != 0.0 ==>
      ApplySide(side, s, ds[i..]) == ApplySide(side, ApplyDelta(side, s, ds[i]), ds[i + 1..])
  {
    assert ds[i..][0] == ds[i];
    assert ds[i..][1..] == ds[i + 1..];
  }

  /**
    The removal the loop body performs, spelled as the body does it: the
    level the side's probe finds at the price is deleted, if there is one.
  */
  lemma RemovalIsLookupThenDelete(side: Side, s: seq<Entry>, d: Delta)
    requires Ordered(side, s) && d.volume == 0.0
    ensures Monotone(s, CompareFor(side, d.price))
    ensures ApplyDelta(side, s, d) ==
      match Get(s, CompareFor(side, d.price))
      case Some(e) => Delete(side, s, e)
      case None => s
  {
    CompareIsMonotone(side, d.price, s);
  }

  /** The entries the loop as written gets to: those up to and including the first removal. */
  function Reached(ds: seq<Delta>): seq<Delta> {
    var k := FirstRemoval(ds);
    if k < |ds| then ds[..k + 1] else ds
  }

  /** The volume the last entry at `price` carries, if any entry is at that price. */
  function LastAt(ds: seq<Delta>, price: real): Option<real> {
    if ds == [] then None
    else
      match LastAt(ds[1..], price)
      case Some(v) => Some(v)
      case None => if ds[0].price == price then Some(ds[0].volume) else None
  }

  /**
    A single entry, in the price-to-volume view: a zero volume leaves no
    level at its price, any other volume leaves exactly that volume there,
    and every other price keeps what it had.
  */
  lemma ApplyDeltaVolumes(side: Side, s: seq<Entry>, d: Delta, price: real)
    requires Ordered(side, s)
    ensures VolumeAt(ApplyDelta(side, s, d), price) ==
      if d.price != price then VolumeAt(s, price)
      else if d.volume == 0.0 then None
      else Some(d.volume)
  {
    var r := ApplyDelta(side, s, d);
    VolumeAtMeans(side, s, price);
    VolumeAtMeans(side, r, price);
    if d.price == price && d.volume != 0.0 {
      assert Entry(price, d.volume) in r;
    }
    if d.price != price {
      if VolumeAt(s, price).Some? {
        assert Entry(price, VolumeAt(s, price).value) in r;
      }
      if VolumeAt(r, price).Some? {
        assert Entry(price, VolumeAt(r, price).value) in s;
      }
    }
  }

  /** A removal at a price the side holds no level at leaves the side exactly as it was. */
  lemma RemovalOfAbsentPrice(side: Side, s: seq<Entry>, d: Delta)
    requires Ordered(side, s)
    requires d.volume == 0.0 && VolumeAt(s, d.price) == None
    ensures ApplyDelta(side, s, d) == s
  {
    VolumeAtMeans(side, s, d.price);
    OrderedUnique(side, ApplyDelta(side, s, d), s);
  }

  /** Applying the same entry twice in succession leaves the side as applying it once. */
  lemma ApplyDeltaIdempotent(side: Side, s: seq<Entry>, d: Delta)
    requires Ordered(side, s)
    ensures ApplyDelta(side, ApplyDelta(side, s, d), d) == ApplyDelta(side, s, d)
  {
    var once := ApplyDelta(side, s, d);
    OrderedUnique(side, ApplyDelta(side, once, d), once);
  }

  /**
    The loop as written applies exactly the entries up to and including the
    first removal, each as ApplyDelta does, and no entry after it.
  */
  lemma {:induction false} ApplySideAppliesReached(side: Side, s: seq<Entry>, ds: seq<Delta>)
    requires Ordered(side, s)
    ensures ApplySide(side, s, ds) == ApplyAll(side, s, Reached(ds))
    decreases |ds|
  {
    if ds != [] {
      if ds[0].volume == 0.0 {
        assert Reached(ds) == [ds[0]];
        assert Reached(ds)[1..] == [];
      } else {
        var rest := ds[1..];
        assert FirstRemoval(ds) == 1 + FirstRemoval(rest);
        assert Reached(ds) == [ds[0]] + Reached(rest);
        assert Reached(ds)[1..] == Reached(rest);
        ApplySideAppliesReached(side, ApplyDelta(side, s, ds[0]), rest);
      }
    }
  }

  /**
    Once a list holds a removal, whatever follows it has no effect on the
    side: the loop as written never reaches it.
  */
  lemma {:induction false} ApplySideIgnoresRest(side: Side, s: seq<Entry>, ds: seq<Delta>, rest: seq<Delta>)
    requires Ordered(side, s)
    requires FirstRemoval(ds) < |ds|
    ensures ApplySide(side, s, ds + rest) == ApplySide(side, s, ds)
    decreases |ds|
  {
    assert (ds + rest)[0] == ds[0];
    if ds[0].volume != 0.0 {
      assert (ds + rest)[1..] == ds[1..] + rest;
      ApplySideIgnoresRest(side, ApplyDelta(side, s, ds[0]), ds[1..], rest);
    }
  }

  /** A list without a removal before its last entry is applied in full by the loop as written. */
  lemma ApplySideWithoutEarlyRemoval(side: Side, s: seq<Entry>, ds: seq<Delta>)
    requires Ordered(side, s)
    requires forall i :: 0 <= i < |ds| - 1 ==> ds[i].volume != 0.0
    ensures ApplySide(side, s, ds) == ApplyAll(side, s, ds)
  {
    ApplySideAppliesReached(side, s, ds);
    var k := FirstRemoval(ds);
    if k < |ds| {
      assert k == |ds| - 1;
      assert ds[..k + 1] == ds;
    }
  }

  /**
    Every entry applied: each price ends with the volume of the last entry
    at that price (no level when that volume is 0), and a price no entry
    mentions keeps its level.
  */
  lemma {:induction false} ApplyAllLastWins(side: Side, s: seq<Entry>, ds: seq<Delta>, price: real)
    requires Ordered(side, s)
    ensures VolumeAt(ApplyAll(side, s, ds), price) ==
      match LastAt(ds, price)
      case None => VolumeAt(s, price)
      case Some(v) => if v == 0.0 then None else Some(v)
    decreases |ds|
  {
    if ds != [] {
      ApplyDeltaVolumes(side, s, ds[0], price);
      ApplyAllLastWins(side, ApplyDelta(side, s, ds[0]), ds[1..], price);
    }
  }

  /**
    The loop as written, in the same view: each price ends with the volume
    of the last entry at it among those the loop reaches.
  */
  lemma ApplySideLastWins(side: Side, s: seq<Entry>, ds: seq<Delta>, price: real)
    requires Ordered(side, s)
    ensures VolumeAt(ApplySide(side, s, ds), price) ==
      match LastAt(Reached(ds), price)
      case None => VolumeAt(s, price)
      case Some(v) => if v == 0.0 then None else Some(v)
  {
    ApplySideAppliesReached(side, s, ds);
    ApplyAllLastWins(side, s, Reached(ds), price);
  }

  /**
    The early exit drops entries: on an empty ask side, the list
    [(100, 0), (101, 5)] leaves the side empty under the loop as written,
    while applying every entry leaves the level (101, 5).
  */
  lemma EarlyExitDropsLaterEntries()
    ensures ApplySide(Asks, [], [Delta(100.0, 0.0), Delta(101.0, 5.0)]) == []
    ensures ApplyAll(Asks, [], [Delta(100.0, 0.0), Delta(101.0, 5.0)]) == [Entry(101.0, 5.0)]
  {
    var ds := [Delta(100.0, 0.0), Delta(101.0, 5.0)];
    assert ApplyDelta(Asks, [], ds[0]) == [];
    assert ds[1..] == [Delta(101.0, 5.0)];
    assert ApplyAll(Asks, [], ds) == ApplyAll(Asks, [], [Delta(101.0, 5.0)]);
    assert ApplyAll(Asks, [], [Delta(101.0, 5.0)]) == ApplyAll(Asks, [Entry(101.0, 5.0)], []);
  }
}
