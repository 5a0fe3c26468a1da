/** The product catalog of `ProductsModule`: three fixed groups of books and
    the lookups over them. Only what the cart, the favorites and the rating
    display read is kept: the id, the group and the rating. */
module Catalog {
  import opened Wrappers

  datatype Group = Popular | Discounts | Recommended

  /** A product; `rating` is in tenths of a star (4.8 is 48). */
  datatype Product = Product(id: int, group: Group, rating: nat)

  const PopularGroup: seq<Product> :=
    [Product(1, Popular, 48), Product(2, Popular, 49), Product(3, Popular, 47), Product(4, Popular, 49)]

  const DiscountGroup: seq<Product> :=
    [Product(5, Discounts, 46), Product(6, Discounts, 48), Product(7, Discounts, 47), Product(8, Discounts, 49)]

  const RecommendedGroup: seq<Product> :=
    [Product(9, Recommended, 48), Product(10, Recommended, 47), Product(11, Recommended, 46), Product(12, Recommended, 48)]

  /** `getAllProducts`: the groups in order popular, discounts, recommended. */
  function AllProducts(): (r: seq<Product>)
    ensures |r| == 12
    ensures forall i :: 0 <= i < |r| ==> r[i].id == i + 1
    ensures forall i :: 0 <= i < |r| ==> r[i].group == (if i < 4 then Popular else if i < 8 then Discounts else Recommended)
  {
    PopularGroup + DiscountGroup + RecommendedGroup
  }

  /** `products.find(p => p.id === id)`: the first product with that id. */
  function FindIn(products: seq<Product>, id: int): (r: Option<Product>)
    ensures r.None? <==> forall i :: 0 <= i < |products| ==> products[i].id != id
    ensures r.Some? ==> r.value.id == id && r.value in products
    ensures r.Some? ==> exists i :: 0 <= i < |products| && products[i] == r.value
                                  && forall j :: 0 <= j < i ==> products[j].id != id
  {
    if |products| == 0 then None
    else if products[0].id == id then Some(products[0])
    else
      var r := FindIn(products[1..], id);
      assert r.Some? ==> exists i :: 0 <= i < |products| && products[i] == r.value
                                  && forall j :: 0 <= j < i ==> products[j].id != id by {
        if r.Some? {
          var k :| 0 <= k < |products| - 1 && products[1..][k] == r.value
                   && forall j :: 0 <= j < k ==> products[1..][j].id != id;
          assert products[k + 1] == r.value;
          assert forall j :: 0 <= j < k + 1 ==> products[j].id != id by {
            forall j | 0 <= j < k + 1
              ensures products[j].id != id
            {
              if j > 0 { assert products[j] == products[1..][j - 1]; }
            }
          }
        }
      }
      r
  }

  /** `getAllProducts().find(p => p.id === id)`: defined exactly for the
      known ids. */
  function Find(id: int): (r: Option<Product>)
    ensures r.Some? <==> Known(id)
    ensures r.Some? ==> r.value.id == id && r.value == AllProducts()[id - 1]
  {
    var all := AllProducts();
    var r := FindIn(all, id);
    assert r.Some? ==> 1 <= id <= 12;
    assert 1 <= id <= 12 ==> all[id - 1].id == id;
    r
  }

  /** A product id the catalog knows: the ids run from 1 to 12 (`Find`
      shows that these are exactly the ids the lookup succeeds on). */
  predicate Known(id: int) {
    1 <= id <= 12
  }

  // ---------------------------------------------------------------------
  // `generateRatingStars`

  datatype Star = Full | Half | Empty

  function Repeat(s: Star, n: nat): (r: seq<Star>)
    ensures |r| == n && forall i :: 0 <= i < n ==> r[i] == s
  {
    if n == 0 then [] else [s] + Repeat(s, n - 1)
  }

  function Count(stars: seq<Star>, s: Star): nat {
    if |stars| == 0 then 0 else (if stars[0] == s then 1 else 0) + Count(stars[1..], s)
  }

  /** `generateRatingStars` on a rating in tenths: `floor(rating)` full stars,
      a half star when the fractional part is at least one half, and the rest
      of five as empty stars (none when the rating leaves no room). */
  function RatingStars(rating: nat): (r: seq<Star>)
    ensures |r| >= 5
    ensures rating <= 50 ==> |r| == 5
    ensures forall i :: 0 <= i < |r| && i < rating / 10 ==> r[i] == Full
  {
    var full := rating / 10;
    var half := rating % 10 >= 5;
    var empty := 5 - full - (if half then 1 else 0);
    Repeat(Full, full) + (if half then [Half] else []) + Repeat(Empty, if empty < 0 then 0 else empty)
  }

  lemma {:induction false} CountAppend(a: seq<Star>, b: seq<Star>, s: Star)
    ensures Count(a + b, s) == Count(a, s) + Count(b, s)
    decreases |a|
  {
    if |a| > 0 {
      assert (a + b)[1..] == a[1..] + b;
      CountAppend(a[1..], b, s);
    } else {
      assert a + b == b;
    }
  }

  lemma {:induction false} CountRepeat(t: Star, n: nat, s: Star)
    ensures Count(Repeat(t, n), s) == if t == s then n else 0
    decreases n
  {
    if n > 0 {
      assert Repeat(t, n)[1..] == Repeat(t, n - 1);
      CountRepeat(t, n - 1, s);
    }
  }

  /** For a rating of at most five, exactly five stars, full ones first,
      then at most one half, then empty ones; the stars shown, counting a
      half as 5 tenths, are the rating rounded down to a half star. */
  lemma RatingStarsShape(rating: nat)
    requires rating <= 50
    ensures var stars := RatingStars(rating);
      && |stars| == 5
      && (forall i, j :: 0 <= i < j < |stars| && stars[j] == Full ==> stars[i] == Full)
      && (forall i, j :: 0 <= i < j < |stars| && stars[i] == Empty ==> stars[j] == Empty)
      && Count(stars, Half) <= 1
      && var shown := 10 * Count(stars, Full) + 5 * Count(stars, Half);
         shown <= rating < shown + 5
  {
    var stars := RatingStars(rating);
    StarCounts(rating);
    forall i, j | 0 <= i < j < |stars| && stars[j] == Full
      ensures stars[i] == Full
    {
      StarAt(rating, i);
      StarAt(rating, j);
    }
    forall i, j | 0 <= i < j < |stars| && stars[i] == Empty
      ensures stars[j] == Empty
    {
      StarAt(rating, i);
      StarAt(rating, j);
    }
  }

  /** The star at position `k`: full below the rating's whole part, then the
      half star if there is one, then empty. */
  lemma StarAt(rating: nat, k: nat)
    requires rating <= 50 && k < 5
    ensures |RatingStars(rating)| == 5
    ensures var full := rating / 10;
      var half := if rating % 10 >= 5 then 1 else 0;
      RatingStars(rating)[k] == if k < full then Full else if k < full + half then Half else Empty
  {
  }

  /** The stars hold `floor(rating)` full stars and one half star exactly
      when the fractional part is at least one half. */
  lemma StarCounts(rating: nat)
    requires rating <= 50
    ensures Count(RatingStars(rating), Full) == rating / 10
    ensures Count(RatingStars(rating), Half) == if rating % 10 >= 5 then 1 else 0
  {
    var full := rating / 10;
    var half := rating % 10 >= 5;
    var empty := 5 - full - (if half then 1 else 0);
    var h: seq<Star> := if half then [Half] else [];
    assert RatingStars(rating) == Repeat(Full, full) + h + Repeat(Empty, empty);
    CountThree(Repeat(Full, full), h, Repeat(Empty, empty), Full);
    CountThree(Repeat(Full, full), h, Repeat(Empty, empty), Half);
    CountRepeat(Full, full, Full);
    CountRepeat(Full, full, Half);
    CountRepeat(Empty, empty, Full);
    CountRepeat(Empty, empty, Half);
    assert Count(h, Full) == 0 && Count(h, Half) == (if half then 1 else 0) by {
      if half { assert h[1..] == []; }
    }
  }

  lemma CountThree(a: seq<Star>, b: seq<Star>, c: seq<Star>, s: Star)
    ensures Count(a + b + c, s) == Count(a, s) + Count(b, s) + Count(c, s)
  {
    CountAppend(a + b, c, s);
    CountAppend(a, b, s);
  }

  /** The first catalog book, rated 4.8, shows four full stars and a half star. */
  lemma CatalogStarsExample()
    ensures RatingStars(AllProducts()[0].rating) == [Full, Full, Full, Full, Half]
  {
    assert AllProducts()[0].rating == 48;
    assert Repeat(Full, 4) == [Full, Full, Full, Full];
    assert Repeat(Empty, 0) == [];
  }
}
