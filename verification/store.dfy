/** The cart and the favorites of `ProductsModule`: two arrays kept in the
    module's closure, each written back to its `localStorage` key after a
    toggle. The store is a value here; every operation returns the next one. */
module Store {
  import opened Wrappers
  import opened Seqs
  import Catalog

  /** A cart entry as the cart logic reads it: the product id and the
      quantity (title, price, image and `addedAt` are display data). */
  datatype CartEntry = CartEntry(id: int, quantity: int)

  function EntryId(e: CartEntry): int {
    e.id
  }

  /** Favorites are plain ids, keyed by themselves. */
  function FavoriteId(id: int): int {
    id
  }

  /** The keys `cart` and `favorites` of `localStorage`; `None` is a key that
      was never written. */
  datatype Storage = Storage(cart: Option<seq<CartEntry>>, favorites: Option<seq<int>>)

  datatype Store = Store(cart: seq<CartEntry>, favorites: seq<int>, storage: Storage)

  /** What a toggle did: nothing (unknown id), added, removed, or threw
      before it reached the storage write. */
  datatype Outcome = Ignored | Added | Removed | Faulted

  datatype Toggled = Toggled(store: Store, outcome: Outcome)

  /** The module's start-up: each array is the parsed stored value, or `[]`
      when the key is missing. */
  function Load(storage: Storage): (r: Store)
    ensures r.storage == storage
    ensures storage.cart.None? ==> r.cart == []
    ensures storage.favorites.None? ==> r.favorites == []
    ensures storage.cart.Some? ==> r.cart == storage.cart.value
    ensures storage.favorites.Some? ==> r.favorites == storage.favorites.value
  {
    Store(storage.cart.GetOr([]), storage.favorites.GetOr([]), storage)
  }

  /** Reloading the page would give back the arrays in memory. */
  predicate Persisted(s: Store) {
    Load(s.storage).cart == s.cart && Load(s.storage).favorites == s.favorites
  }

  /** `cart.some(item => item.id === id)`. */
  predicate InCart(cart: seq<CartEntry>, id: int) {
    HasKey(cart, EntryId, id)
  }

  /** `isFavorite`: `favorites.includes(id)`. */
  function IsFavorite(s: Store, id: int): (ok: bool)
    ensures ok <==> FindIndex(s.favorites, FavoriteId, id) != -1
  {
    FavoriteKey(s.favorites, id);
    id in s.favorites
  }

  /** The badge counter: `cart.reduce((sum, item) => sum + item.quantity, 0)`. */
  function CartCount(cart: seq<CartEntry>): (n: int)
    ensures (forall i :: 0 <= i < |cart| ==> cart[i].quantity >= 0) ==> n >= 0
    ensures (forall i :: 0 <= i < |cart| ==> cart[i].quantity == 1) ==> n == |cart|
  {
    if |cart| == 0 then 0 else CartCount(cart[..|cart| - 1]) + cart[|cart| - 1].quantity
  }

  /** `toggleCart`: an unknown id changes nothing; otherwise the first entry
      for the id is spliced out, or an entry with quantity 1 is pushed, and
      the whole cart is written to its key. */
  function ToggleCart(s: Store, id: int): (r: Toggled)
    ensures !Catalog.Known(id) ==> r == Toggled(s, Ignored)
    ensures Catalog.Known(id) && !InCart(s.cart, id) ==>
      r.outcome == Added && r.store.cart == s.cart + [CartEntry(id, 1)]
    ensures Catalog.Known(id) && InCart(s.cart, id) ==>
      r.outcome == Removed
    ensures r.outcome != Ignored ==> r.store.storage == s.storage.(cart := Some(r.store.cart))
    ensures r.store.favorites == s.favorites
  {
    if !Catalog.Known(id) then Toggled(s, Ignored)
    else
      var i := FindIndex(s.cart, EntryId, id);
      if i > -1 then
        var cart := RemoveAt(s.cart, i);
        Toggled(s.(cart := cart, storage := s.storage.(cart := Some(cart))), Removed)
      else
        var cart := s.cart + [CartEntry(id, 1)];
        Toggled(s.(cart := cart, storage := s.storage.(cart := Some(cart))), Added)
  }

  /** `addToCart`, exported on `window`: a catalog lookup, then `toggleCart`,
      so an item already in the cart is taken out of it. */
  function AddToCart(s: Store, id: int): (r: Toggled)
    ensures r == ToggleCart(s, id)
    ensures Catalog.Known(id) && InCart(s.cart, id) ==> r.outcome == Removed
  {
    if Catalog.Known(id) then ToggleCart(s, id) else Toggled(s, Ignored)
  }

  /** `toggleFavorite` as written: the id is pushed or spliced out first, and
      only then is the product looked up. For an id outside the catalog
      `product.title` throws, after the array changed and before it was
      written to its key. */
  function ToggleFavorite(s: Store, id: int): (r: Toggled)
    ensures !IsFavorite(s, id) ==> r.store.favorites == s.favorites + [id]
    ensures r.outcome == Faulted <==> !Catalog.Known(id)
    ensures r.outcome == Added <==> Catalog.Known(id) && !IsFavorite(s, id)
    ensures Catalog.Known(id) ==> r.store.storage == s.storage.(favorites := Some(r.store.favorites))
    ensures !Catalog.Known(id) ==> r.store.storage == s.storage
    ensures r.store.cart == s.cart
  {
    FavoriteKey(s.favorites, id);
    var i := FindIndex(s.favorites, FavoriteId, id);
    var favorites := if i == -1 then s.favorites + [id] else RemoveAt(s.favorites, i);
    var memory := s.(favorites := favorites);
    if !Catalog.Known(id) then Toggled(memory, Faulted)
    else Toggled(memory.(storage := s.storage.(favorites := Some(favorites))), if i == -1 then Added else Removed)
  }

  /** `toggleFavorite` with the catalog check `toggleCart` has: an unknown id
      changes nothing. */
  function ToggleFavoriteGuarded(s: Store, id: int): (r: Toggled)
    ensures !Catalog.Known(id) ==> r == Toggled(s, Ignored)
    ensures Catalog.Known(id) ==> r == ToggleFavorite(s, id)
    ensures Persisted(s) ==> Persisted(r.store)
  {
    if !Catalog.Known(id) then Toggled(s, Ignored) else ToggleFavorite(s, id)
  }

  // ---------------------------------------------------------------------
  // Lemmas

  lemma FavoriteKey(favorites: seq<int>, id: int)
    ensures HasKey(favorites, FavoriteId, id) <==> id in favorites
  {
    if id in favorites {
      var i :| 0 <= i < |favorites| && favorites[i] == id;
      assert FavoriteId(favorites[i]) == id;
    }
  }

  lemma {:induction false} CartCountAppend(a: seq<CartEntry>, b: seq<CartEntry>)
    ensures CartCount(a + b) == CartCount(a) + CartCount(b)
    decreases |b|
  {
    if |b| == 0 {
      assert a + b == a;
    } else {
      assert (a + b)[..|a + b| - 1] == a + b[..|b| - 1];
      CartCountAppend(a, b[..|b| - 1]);
    }
  }

  /** On a catalog id, `toggleCart` flips membership and keeps the ids unique. */
  lemma ToggleCartFlips(s: Store, id: int)
    requires Catalog.Known(id) && UniqueKeys(s.cart, EntryId)
    ensures var r := ToggleCart(s, id).store;
      && UniqueKeys(r.cart, EntryId)
      && (InCart(r.cart, id) <==> !InCart(s.cart, id))
  {
    var i := FindIndex(s.cart, EntryId, id);
    if i > -1 {
      RemoveUnique(s.cart, i, EntryId);
    } else {
      AppendUnique(s.cart, CartEntry(id, 1), EntryId);
      assert (s.cart + [CartEntry(id, 1)])[|s.cart|].id == id;
    }
  }

  /** On an item in the cart, the toggle splices out its first entry. */
  lemma ToggleCartRemovesFirst(s: Store, id: int)
    requires Catalog.Known(id) && InCart(s.cart, id)
    ensures RemovesFirst(s.cart, ToggleCart(s, id).store.cart, EntryId, id)
  {
    SpliceFirst(s.cart, EntryId, id);
  }

  /** A toggle leaves every other entry of the cart in place and in order. */
  lemma ToggleCartKeepsOthers(s: Store, id: int)
    ensures Without(ToggleCart(s, id).store.cart, EntryId, id) == Without(s.cart, EntryId, id)
  {
    if Catalog.Known(id) {
      var i := FindIndex(s.cart, EntryId, id);
      if i > -1 {
        RemoveAtWithout(s.cart, i, EntryId, id);
      } else {
        AppendWithout(s.cart, CartEntry(id, 1), EntryId);
      }
    }
  }

  /** On a favorite, the toggle splices out its first occurrence. */
  lemma ToggleFavoriteRemovesFirst(s: Store, id: int)
    requires IsFavorite(s, id)
    ensures RemovesFirst(s.favorites, ToggleFavorite(s, id).store.favorites, FavoriteId, id)
  {
    FavoriteKey(s.favorites, id);
    SpliceFirst(s.favorites, FavoriteId, id);
  }

  /** A toggle leaves every other favorite in place and in order. */
  lemma ToggleFavoriteKeepsOthers(s: Store, id: int)
    ensures Without(ToggleFavorite(s, id).store.favorites, FavoriteId, id) == Without(s.favorites, FavoriteId, id)
  {
    var i := FindIndex(s.favorites, FavoriteId, id);
    var after := ToggleFavorite(s, id).store.favorites;
    if i > -1 {
      assert after == RemoveAt(s.favorites, i);
      RemoveAtWithout(s.favorites, i, FavoriteId, id);
    } else {
      assert after == s.favorites + [id];
      AppendWithout(s.favorites, id, FavoriteId);
    }
  }

  /** The counter rises by one on an add and falls by the removed entry's
      quantity on a removal. */
  lemma ToggleCartCount(s: Store, id: int)
    ensures var r := ToggleCart(s, id);
      && (r.outcome == Ignored ==> CartCount(r.store.cart) == CartCount(s.cart))
      && (r.outcome == Added ==> CartCount(r.store.cart) == CartCount(s.cart) + 1)
      && (r.outcome == Removed ==>
            CartCount(r.store.cart) == CartCount(s.cart) - s.cart[FindIndex(s.cart, EntryId, id)].quantity)
  {
    var r := ToggleCart(s, id);
    if r.outcome == Added {
      CartCountAppend(s.cart, [CartEntry(id, 1)]);
      assert CartCount([CartEntry(id, 1)]) == 1 by {
        assert [CartEntry(id, 1)][..0] == [];
      }
    } else if r.outcome == Removed {
      var i := FindIndex(s.cart, EntryId, id);
      var e := s.cart[i];
      assert s.cart == s.cart[..i] + [e] + s.cart[i + 1..];
      CartCountAppend(s.cart[..i] + [e], s.cart[i + 1..]);
      CartCountAppend(s.cart[..i], [e]);
      CartCountAppend(s.cart[..i], s.cart[i + 1..]);
      assert CartCount([e]) == e.quantity by {
        assert [e][..0] == [];
      }
    }
  }

  /** Adding and then removing restores the cart exactly. */
  lemma ToggleCartTwiceFromAbsent(s: Store, id: int)
    requires !InCart(s.cart, id)
    ensures ToggleCart(ToggleCart(s, id).store, id).store.cart == s.cart
  {
    if Catalog.Known(id) {
      var once := ToggleCart(s, id).store;
      var e := CartEntry(id, 1);
      assert once.cart == s.cart + [e];
      assert FindIndex(once.cart, EntryId, id) == |s.cart| by {
        assert once.cart[..|s.cart|] == s.cart;
        assert once.cart[|s.cart|] == e;
      }
      assert RemoveAt(once.cart, |s.cart|) == s.cart;
    }
  }

  /** Removing and then adding again moves the item to the end of the cart,
      with quantity 1. */
  lemma ToggleCartTwiceFromPresent(s: Store, id: int)
    requires Catalog.Known(id) && UniqueKeys(s.cart, EntryId) && InCart(s.cart, id)
    ensures ToggleCart(ToggleCart(s, id).store, id).store.cart
            == Without(s.cart, EntryId, id) + [CartEntry(id, 1)]
  {
    var once := ToggleCart(s, id).store;
    ToggleCartFlips(s, id);
    ToggleCartKeepsOthers(s, id);
    WithoutNoKey(once.cart, EntryId, id);
  }

  /** Every toggle on a catalog id writes the cart it produced, so a reload
      gives it back; an unknown id writes nothing and changes nothing. */
  lemma ToggleCartPersists(s: Store, id: int)
    requires Persisted(s)
    ensures Persisted(ToggleCart(s, id).store)
  {
  }

  /** On a catalog id, `toggleFavorite` flips membership, keeps the ids
      unique and writes the array it produced. */
  lemma ToggleFavoriteFlips(s: Store, id: int)
    requires Catalog.Known(id) && UniqueKeys(s.favorites, FavoriteId)
    ensures var r := ToggleFavorite(s, id).store;
      && UniqueKeys(r.favorites, FavoriteId)
      && (IsFavorite(r, id) <==> !IsFavorite(s, id))
      && r.storage.favorites == Some(r.favorites)
  {
    var r := ToggleFavorite(s, id).store;
    FavoriteKey(s.favorites, id);
    FavoriteKey(r.favorites, id);
    var i := FindIndex(s.favorites, FavoriteId, id);
    if i > -1 {
      RemoveUnique(s.favorites, i, FavoriteId);
    } else {
      AppendUnique(s.favorites, id, FavoriteId);
    }
  }

  /** Favoriting and then unfavoriting restores the array exactly, for any id. */
  lemma ToggleFavoriteTwiceFromAbsent(s: Store, id: int)
    requires !IsFavorite(s, id)
    ensures ToggleFavorite(ToggleFavorite(s, id).store, id).store.favorites == s.favorites
  {
    var once := ToggleFavorite(s, id).store;
    assert once.favorites == s.favorites + [id];
    FavoriteKey(s.favorites, id);
    assert FindIndex(once.favorites, FavoriteId, id) == |s.favorites| by {
      assert FavoriteId(once.favorites[|s.favorites|]) == id;
    }
    assert RemoveAt(once.favorites, |s.favorites|) == s.favorites;
  }

  /** Favoriting a catalog book and reloading the page shows it as a favorite. */
  lemma FavoriteSurvivesReload(s: Store, id: int)
    requires Catalog.Known(id) && !IsFavorite(s, id)
    ensures IsFavorite(Load(ToggleFavorite(s, id).store.storage), id)
  {
  }

  /** For an id outside the catalog, `toggleFavorite` throws after pushing:
      the array in memory holds the id, its stored copy does not. */
  lemma ToggleFavoriteUnknownDiverges(s: Store, id: int)
    requires Persisted(s) && !Catalog.Known(id) && !IsFavorite(s, id)
    ensures var r := ToggleFavorite(s, id);
      && r.outcome == Faulted
      && IsFavorite(r.store, id)
      && !IsFavorite(Load(r.store.storage), id)
      && !Persisted(r.store)
  {
  }

  /** The unguarded toggle on id 13 from an empty store. */
  lemma ToggleFavoriteUnknownExample()
    ensures var r := ToggleFavorite(Load(Storage(None, None)), 13);
      r.outcome == Faulted && r.store.favorites == [13] && r.store.storage.favorites == None
  {
  }

  // ---------------------------------------------------------------------
  // A browsing session

  /** The store operations a page can trigger. */
  datatype Action = CartButton(id: int) | FavoriteButton(id: int) | AddToCartCall(id: int) | Reload

  /** One action, as the page's handlers run it. */
  function Apply(s: Store, a: Action): (r: Store)
    ensures a.CartButton? || a.AddToCartCall? ==> r.favorites == s.favorites
    ensures a.FavoriteButton? ==> r.cart == s.cart
    ensures a.Reload? && Persisted(s) ==> r == s
  {
    match a
    case CartButton(id) => ToggleCart(s, id).store
    case FavoriteButton(id) => ToggleFavorite(s, id).store
    case AddToCartCall(id) => AddToCart(s, id).store
    case Reload => Load(s.storage)
  }

  function Session(s: Store, actions: seq<Action>): Store
    decreases |actions|
  {
    if |actions| == 0 then s else Session(Apply(s, actions[0]), actions[1..])
  }

  /** The store's invariant: ids unique in both arrays, and storage in step
      with memory. */
  predicate Consistent(s: Store) {
    UniqueKeys(s.cart, EntryId) && UniqueKeys(s.favorites, FavoriteId) && Persisted(s)
  }

  /** Every favorite button clicked carries a catalog id, as the buttons the
      product cards render do. */
  predicate RenderedIds(actions: seq<Action>) {
    forall i :: 0 <= i < |actions| && actions[i].FavoriteButton? ==> Catalog.Known(actions[i].id)
  }

  lemma ApplyConsistent(s: Store, a: Action)
    requires Consistent(s)
    requires a.FavoriteButton? ==> Catalog.Known(a.id)
    ensures Consistent(Apply(s, a))
  {
    match a
    case CartButton(id) =>
      if Catalog.Known(id) { ToggleCartFlips(s, id); }
    case FavoriteButton(id) =>
      if Catalog.Known(id) { ToggleFavoriteFlips(s, id); }
    case AddToCartCall(id) =>
      if Catalog.Known(id) { ToggleCartFlips(s, id); }
    case Reload =>
  }

  /** Whatever the user clicks on the rendered cards, starting from stored
      arrays without repeated ids, the store stays consistent. */
  lemma {:induction false} SessionConsistent(s: Store, actions: seq<Action>)
    requires Consistent(s)
    requires RenderedIds(actions)
    ensures Consistent(Session(s, actions))
    decreases |actions|
  {
    if |actions| > 0 {
      ApplyConsistent(s, actions[0]);
      assert RenderedIds(actions[1..]) by {
        forall i | 0 <= i < |actions| - 1 && actions[1..][i].FavoriteButton?
          ensures Catalog.Known(actions[1..][i].id)
        {
          assert actions[1..][i] == actions[i + 1];
        }
      }
      SessionConsistent(Apply(s, actions[0]), actions[1..]);
    }
  }

  /** A favorite button with an id outside the catalog breaks consistency at
      the first click: the array in memory and its stored copy part ways. */
  lemma UnknownFavoriteBreaksSession()
    ensures !Consistent(Session(Load(Storage(None, None)), [FavoriteButton(13)]))
  {
    var s := Load(Storage(None, None));
    assert [FavoriteButton(13)][1..] == [];
    ToggleFavoriteUnknownDiverges(s, 13);
  }

  lemma LoadConsistent(storage: Storage)
    requires UniqueKeys(storage.cart.GetOr([]), EntryId)
    requires UniqueKeys(storage.favorites.GetOr([]), FavoriteId)
    ensures Consistent(Load(storage))
  {
  }
}
