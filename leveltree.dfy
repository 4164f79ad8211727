/**
  One side's tree of price levels, as the book uses it: an ordered map from
  price to volume, stored as the sequence of its levels in the side's order
  (the order an in-order traversal of the tree visits them). The operations
  are those the book calls: Get with a three-way probe, Delete, and Insert,
  which replaces the level at the new entry's price if there is one.
*/
module LevelTree {
  import opened Orders

  datatype Option<T> = None | Some(value: T)

  /** Levels are stored strictly in the side's order, so no two share a price. */
  ghost predicate Ordered(side: Side, s: seq<Entry>) {
    forall i, j :: 0 <= i < j < |s| ==> Precedes(side, s[i], s[j])
  }

  /** A probe fit to guide a search: its value never decreases along the levels. */
  ghost predicate Monotone(s: seq<Entry>, cmp: Entry -> int) {
    forall i, j :: 0 <= i < j < |s| ==> cmp(s[i]) <= cmp(s[j])
  }

  /** The price-to-volume view of the levels: the volume stored at `price`, if any. */
  ghost function VolumeAt(s: seq<Entry>, price: real): Option<real> {
    if s == [] then None
    else if s[0].price == price then Some(s[0].volume)
    else VolumeAt(s[1..], price)
  }

  /** In an ordered side, VolumeAt names the one level stored at the price, or says there is none. */
  lemma {:induction false} VolumeAtMeans(side: Side, s: seq<Entry>, price: real)
    requires Ordered(side, s)
    ensures forall v :: VolumeAt(s, price) == Some(v) <==> Entry(price, v) in s
    ensures VolumeAt(s, price) == None <==> forall x :: x in s ==> x.price != price
  {
    if s != [] {
      OrderedTail(side, s);
      VolumeAtMeans(side, s[1..], price);
    }
  }

  /**
    Each side's own probe is fit to guide a search through that side's
    levels: its sign follows the storage order.
  */
  lemma CompareIsMonotone(side: Side, price: real, s: seq<Entry>)
    requires Ordered(side, s)
    ensures Monotone(s, CompareFor(side, price))
  {
    forall i, j | 0 <= i < j < |s|
      ensures CompareFor(side, price)(s[i]) <= CompareFor(side, price)(s[j])
    {
      PrecedesIsStrictTotalOrder(side, s[i], s[j], s[j]);
    }
  }

  /**
    Get: the level the probe answers 0 for, found by descending through the
    levels as the probe's sign directs; None when the probe answers 0 for
    no level.
  */
  function Get(s: seq<Entry>, cmp: Entry -> int): (r: Option<Entry>)
    requires Monotone(s, cmp)
    ensures r.Some? ==> r.value in s && cmp(r.value) == 0
    ensures r.None? ==> forall e :: e in s ==> cmp(e) != 0
    decreases |s|
  {
    if s == [] then None
    else
      var mid := |s| / 2;
      var c := cmp(s[mid]);
      if c == 0 then Some(s[mid])
      else if c < 0 then
        SearchRight(s, cmp, mid);
        Get(s[mid + 1..], cmp)
      else
        SearchLeft(s, cmp, mid);
        Get(s[..mid], cmp)
  }

  /** A probe negative at `mid` can answer 0 only to the right of it. */
  lemma SearchRight(s: seq<Entry>, cmp: Entry -> int, mid: nat)
    requires Monotone(s, cmp) && mid < |s| && cmp(s[mid]) < 0
    ensures Monotone(s[mid + 1..], cmp)
    ensures forall e :: e in s[mid + 1..] ==> e in s
    ensures forall e :: e in s && cmp(e) == 0 ==> e in s[mid + 1..]
  {
    var t := s[mid + 1..];
    forall i, j | 0 <= i < j < |t| ensures cmp(t[i]) <= cmp(t[j]) {
      assert t[i] == s[mid + 1 + i] && t[j] == s[mid + 1 + j];
    }
    forall e | e in s && cmp(e) == 0 ensures e in t {
      var k :| 0 <= k < |s| && s[k] == e;
      assert t[k - mid - 1] == e;
    }
  }

  /** A probe positive at `mid` can answer 0 only to the left of it. */
  lemma SearchLeft(s: seq<Entry>, cmp: Entry -> int, mid: nat)
    requires Monotone(s, cmp) && mid < |s| && cmp(s[mid]) > 0
    ensures Monotone(s[..mid], cmp)
    ensures forall e :: e in s[..mid] ==> e in s
    ensures forall e :: e in s && cmp(e) == 0 ==> e in s[..mid]
  {
    var t := s[..mid];
    forall i, j | 0 <= i < j < |t| ensures cmp(t[i]) <= cmp(t[j]) {
      assert t[i] == s[i] && t[j] == s[j];
    }
    forall e | e in s && cmp(e) == 0 ensures e in t {
      var k :| 0 <= k < |s| && s[k] == e;
      assert t[k] == e;
    }
  }

  /**
    Looking up a price with its side's probe finds exactly the level stored
    at that price, or nothing when the side has no level there.
  */
  lemma GetFindsLevel(side: Side, s: seq<Entry>, price: real)
    requires Ordered(side, s)
    ensures Monotone(s, CompareFor(side, price))
    ensures Get(s, CompareFor(side, price)) ==
      match VolumeAt(s, price)
      case Some(v) => Some(Entry(price, v))
      case None => None
  {
    CompareIsMonotone(side, price, s);
    VolumeAtMeans(side, s, price);
    var r := Get(s, CompareFor(side, price));
    if r.Some? {
      CompareAgreesWithSide(side, price, r.value, r.value);
      assert Entry(price, r.value.volume) == r.value;
    } else {
      forall x | x in s ensures x.price != price {
        CompareAgreesWithSide(side, price, x, Entry(price, x.volume));
      }
    }
  }

  /** Delete: removes the level at the item's price; every other level stays. */
  function Delete(side: Side, s: seq<Entry>, item: Entry): (r: seq<Entry>)
    requires Ordered(side, s)
    ensures Ordered(side, r)
    ensures forall x :: x in r <==> x in s && x.price != item.price
    decreases |s|
  {
    if s == [] then []
    else
      OrderedTail(side, s);
      assert s == [s[0]] + s[1..];
      if s[0].price == item.price then s[1..]
      else [s[0]] + Delete(side, s[1..], item)
  }

  /**
    Insert as upsert: afterwards the side holds exactly one level at the
    item's price, the item itself, and every level at another price stays.
  */
  function Insert(side: Side, s: seq<Entry>, item: Entry): (r: seq<Entry>)
    requires Ordered(side, s)
    ensures Ordered(side, r)
    ensures forall x :: x in r <==> x == item || (x in s && x.price != item.price)
    decreases |s|
  {
    if s == [] then [item]
    else
      OrderedTail(side, s);
      assert s == [s[0]] + s[1..];
      if Precedes(side, item, s[0]) then [item] + s
      else if s[0].price == item.price then [item] + s[1..]
      else [s[0]] + Insert(side, s[1..], item)
  }

  /** Two ordered sides holding the same levels are the same sequence. */
  lemma {:induction false} OrderedUnique(side: Side, a: seq<Entry>, b: seq<Entry>)
    requires Ordered(side, a) && Ordered(side, b)
    requires forall x :: x in a <==> x in b
    ensures a == b
  {
    HasMember(a);
    HasMember(b);
    if a != [] && b != [] {
      assert a[0] == b[0] by {
        assert a[0] in b && b[0] in a;
        PrecedesIsStrictTotalOrder(side, a[0], b[0], b[0]);
      }
      OrderedTail(side, a);
      OrderedTail(side, b);
      forall x ensures x in a[1..] <==> x in b[1..] {
        TailMembers(side, a, x);
        TailMembers(side, b, x);
      }
      OrderedUnique(side, a[1..], b[1..]);
      assert a == [a[0]] + a[1..] && b == [b[0]] + b[1..];
    }
  }

  /** A non-empty side holds some level. */
  lemma HasMember(s: seq<Entry>)
    ensures s != [] ==> exists x :: x in s
  {
    if s != [] {
      assert s[0] in s;
    }
  }

  /** The levels after the first of an ordered side are ordered, and all come after the first. */
  lemma OrderedTail(side: Side, s: seq<Entry>)
    requires Ordered(side, s) && s != []
    ensures Ordered(side, s[1..])
    ensures forall x :: x in s[1..] ==> Precedes(side, s[0], x)
  {
    forall x | x in s[1..] ensures Precedes(side, s[0], x) {
      var j :| 0 <= j < |s[1..]| && s[1..][j] == x;
      assert s[j + 1] == x;
    }
  }

  /** In an ordered side, the levels after the first are all the others. */
  lemma TailMembers(side: Side, s: seq<Entry>, x: Entry)
    requires Ordered(side, s) && s != []
    ensures x in s[1..] <==> x in s && x != s[0]
  {
    assert s == [s[0]] + s[1..];
    if x in s[1..] {
      var j :| 0 <= j < |s[1..]| && s[1..][j] == x;
      assert s[j + 1] == x;
      PrecedesIsStrictTotalOrder(side, s[0], x, x);
    }
  }

  /** Inserting the same entry twice leaves the side as inserting it once. */
  lemma InsertIdempotent(side: Side, s: seq<Entry>, item: Entry)
    requires Ordered(side, s)
    ensures Insert(side, Insert(side, s, item), item) == Insert(side, s, item)
  {
    var once := Insert(side, s, item);
    OrderedUnique(side, Insert(side, once, item), once);
  }

  /** Deleting a price the side does not hold leaves the side as it was. */
  lemma DeleteAbsent(side: Side, s: seq<Entry>, item: Entry)
    requires Ordered(side, s)
    requires forall x :: x in s ==> x.price != item.price
    ensures Delete(side, s, item) == s
  {
    OrderedUnique(side, Delete(side, s, item), s);
  }

  /** Deleting the same price twice leaves the side as deleting it once. */
  lemma DeleteIdempotent(side: Side, s: seq<Entry>, item: Entry)
    requires Ordered(side, s)
    ensures Delete(side, Delete(side, s, item), item) == Delete(side, s, item)
  {
    DeleteAbsent(side, Delete(side, s, item), item);
  }
}
