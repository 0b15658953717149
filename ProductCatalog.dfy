/**
 * The product handlers of src/controllers/productController.js and their
 * in-memory cache: two maps, `data` (the cached listing per key) and
 * `timeout` (the pending expiry timer per key), updated in place. A timer
 * firing is the explicit method `Expire`; cancelling one is dropping it from
 * `timeout`. The product collection is a sequence in insertion order, so its
 * newest-first order is the reverse.
 */
module ProductCatalog {
  import opened Common

  type ProductId = nat

  /** A product as the listings return it; `price` and `stock` are kept as the submitted text. */
  datatype Product = Product(id: ProductId, name: string, description: string, price: string, category: string, stock: string)

  /** A pending `setTimeout`: its handle and its delay. */
  datatype Timer = Timer(handle: nat, delayMs: nat)

  datatype ProductError = MissingFields | NotFound
  {
    function Code(): int
    {
      match this
      case MissingFields => 400
      case NotFound => 404
    }
  }

  const PublicKey: string := "all_products"
  const AdminKey: string := "admin_products"
  /** The public listing's `limit(20)`. */
  const PublicLimit: nat := 20
  const PublicDelayMs: nat := 5 * 60 * 1000
  const AdminDelayMs: nat := 60 * 1000

  /** `sort({ createdAt: -1 })` over a collection kept in insertion order. */
  function NewestFirst(ps: seq<Product>): (r: seq<Product>)
    ensures |r| == |ps|
    ensures forall i :: 0 <= i < |ps| ==> r[i] == ps[|ps| - 1 - i]
  {
    if ps == [] then [] else [ps[|ps| - 1]] + NewestFirst(ps[..|ps| - 1])
  }

  /** The public listing: the newest `PublicLimit` products, newest first. */
  function PublicListing(ps: seq<Product>): (r: seq<Product>)
    ensures |r| == if |ps| < PublicLimit then |ps| else PublicLimit
    ensures forall i :: 0 <= i < |r| ==> r[i] == ps[|ps| - 1 - i]
  {
    var all := NewestFirst(ps);
    if |all| <= PublicLimit then all else all[..PublicLimit]
  }

  /** The admin listing: every product, newest first. */
  function AdminListing(ps: seq<Product>): (r: seq<Product>)
    ensures |r| == |ps| && multiset(r) == multiset(ps)
    ensures forall i :: 0 <= i < |ps| ==> r[i] == ps[|ps| - 1 - i]
  {
    var r := NewestFirst(ps);
    ReversalSameElements(ps, r);
    r
  }

  lemma ReversalSameElements(ps: seq<Product>, r: seq<Product>)
    requires |r| == |ps| && forall i :: 0 <= i < |ps| ==> r[i] == ps[|ps| - 1 - i]
    ensures multiset(r) == multiset(ps)
    decreases |ps|
  {
    if ps != [] {
      var n := |ps|;
      ReversalSameElements(ps[..n - 1], r[1..]);
      assert ps == ps[..n - 1] + [ps[n - 1]];
      assert r == [r[0]] + r[1..];
    }
  }

  /** `if (!name || !description || !price || !category || !stock)` of `addProduct`. */
  function HasAllFields(name: Option<string>, description: Option<string>, price: Option<string>,
                        category: Option<string>, stock: Option<string>): (b: bool)
    ensures b <==> forall f <- [name, description, price, category, stock] :: f.Some? && f.value != ""
  {
    Truthy(name) && Truthy(description) && Truthy(price) && Truthy(category) && Truthy(stock)
  }

  /** The index of the product with id `id`. */
  function IndexOfProduct(ps: seq<Product>, id: ProductId): (k: Option<nat>)
    ensures k.Some? ==> k.value < |ps| && ps[k.value].id == id
    ensures k.None? <==> forall p :: p in ps ==> p.id != id
  {
    if ps == [] then None
    else if ps[0].id == id then Some(0)
    else
      match IndexOfProduct(ps[1..], id)
      case None => None
      case Some(k) => Some(k + 1)
  }

  predicate UniqueProductIds(ps: seq<Product>)
  {
    forall i, j :: 0 <= i < j < |ps| ==> ps[i].id != ps[j].id
  }

  class ProductService {
    /** `productCache.data`. */
    var data: map<string, seq<Product>>
    /** `productCache.timeout`. */
    var timeout: map<string, Timer>
    /** The handle the next `setTimeout` returns. */
    var nextHandle: nat
    /** The product collection, in insertion order. */
    var products: seq<Product>
    var nextProductId: nat

    /** A key has a cached listing exactly when it has a pending timer; ids are unique. */
    ghost predicate Valid()
      reads this
    {
      && data.Keys == timeout.Keys
      && UniqueProductIds(products)
      && (forall p :: p in products ==> p.id < nextProductId)
    }

    constructor ()
      ensures Valid() && data == map[] && timeout == map[] && products == []
    {
      data := map[];
      timeout := map[];
      nextHandle := 0;
      products := [];
      nextProductId := 0;
    }

    /** `clearCache(key)`: drop the key from both maps and nothing else. */
    method ClearCache(key: string)
      requires Valid()
      modifies this
      ensures Valid()
      ensures data == old(data) - {key} && timeout == old(timeout) - {key}
      ensures products == old(products) && nextHandle == old(nextHandle) && nextProductId == old(nextProductId)
    {
      data := data - {key};
      timeout := timeout - {key};
    }

    /** The timer set for `key` fires: its callback is `clearCache(key)`. */
    method Expire(key: string)
      requires Valid()
      modifies this
      ensures Valid()
      ensures key !in data && key !in timeout
      ensures data == old(data) - {key} && timeout == old(timeout) - {key}
      ensures products == old(products) && nextHandle == old(nextHandle) && nextProductId == old(nextProductId)
    {
      ClearCache(key);
    }

    /**
     * `invalidateCache`: for every key with a pending timer, cancel the timer
     * and clear the key. Afterwards both maps are empty.
     */
    method InvalidateCache()
      requires Valid()
      modifies this
      ensures Valid()
      ensures data == old(data) - old(timeout).Keys && timeout == map[]
      ensures data == map[]
      ensures products == old(products) && nextHandle == old(nextHandle) && nextProductId == old(nextProductId)
    {
      var pending := timeout.Keys;
      while pending != {}
        invariant Valid()
        invariant pending <= old(timeout).Keys
        invariant timeout.Keys == pending
        invariant data == old(data) - (old(timeout).Keys - pending)
        invariant products == old(products) && nextHandle == old(nextHandle) && nextProductId == old(nextProductId)
        decreases pending
      {
        var key :| key in pending;
        ClearCache(key);
        pending := pending - {key};
      }
    }

    /**
     * Serve one cached listing: on a hit return the cached value and change
     * nothing; on a miss store `computed` under `key` with a new timer of
     * `delayMs`.
     */
    method Serve(key: string, computed: seq<Product>, delayMs: nat) returns (list: seq<Product>, fromCache: bool)
      requires Valid()
      modifies this
      ensures Valid()
      ensures fromCache <==> key in old(data)
      ensures fromCache ==> list == old(data)[key] && data == old(data) && timeout == old(timeout)
                            && nextHandle == old(nextHandle)
      ensures !fromCache ==> list == computed && data == old(data)[key := computed]
                             && timeout == old(timeout)[key := Timer(old(nextHandle), delayMs)]
                             && nextHandle == old(nextHandle) + 1
      ensures products == old(products) && nextProductId == old(nextProductId)
    {
      if key in data {
        return data[key], true;
      }
      data := data[key := computed];
      timeout := timeout[key := Timer(nextHandle, delayMs)];
      nextHandle := nextHandle + 1;
      list, fromCache := computed, false;
    }

    /** `getProducts`: the public listing, from the cache when it holds one. */
    method GetProducts() returns (list: seq<Product>, fromCache: bool)
      requires Valid()
      modifies this
      ensures Valid()
      ensures fromCache <==> PublicKey in old(data)
      ensures fromCache ==> list == old(data)[PublicKey] && data == old(data) && timeout == old(timeout)
      ensures !fromCache ==> list == PublicListing(products) && data == old(data)[PublicKey := list]
                             && timeout == old(timeout)[PublicKey := Timer(old(nextHandle), PublicDelayMs)]
      ensures !fromCache ==> |list| <= PublicLimit
      ensures nextHandle == if fromCache then old(nextHandle) else old(nextHandle) + 1
      ensures products == old(products) && nextProductId == old(nextProductId)
    {
      list, fromCache := Serve(PublicKey, PublicListing(products), PublicDelayMs);
    }

    /** `getAdminProducts`: the whole listing, from the cache when it holds one. */
    method GetAdminProducts() returns (list: seq<Product>, fromCache: bool)
      requires Valid()
      modifies this
      ensures Valid()
      ensures fromCache <==> AdminKey in old(data)
      ensures fromCache ==> list == old(data)[AdminKey] && data == old(data) && timeout == old(timeout)
      ensures !fromCache ==> list == AdminListing(products) && data == old(data)[AdminKey := list]
                             && timeout == old(timeout)[AdminKey := Timer(old(nextHandle), AdminDelayMs)]
      ensures !fromCache ==> |list| == |products|
      ensures nextHandle == if fromCache then old(nextHandle) else old(nextHandle) + 1
      ensures products == old(products) && nextProductId == old(nextProductId)
    {
      list, fromCache := Serve(AdminKey, AdminListing(products), AdminDelayMs);
    }

    /**
     * `addProduct`: refuse a request missing a field, touching nothing;
     * otherwise save the product and invalidate the cache.
     */
    method AddProduct(name: Option<string>, description: Option<string>, price: Option<string>,
                      category: Option<string>, stock: Option<string>)
      returns (r: Result<Product, ProductError>)
      requires Valid()
      modifies this
      ensures Valid()
      ensures r.Err? <==> !HasAllFields(name, description, price, category, stock)
      ensures r.Err? ==> r.error == MissingFields && r.error.Code() == 400
      ensures r.Err? ==> products == old(products) && data == old(data) && timeout == old(timeout)
      ensures r.Ok? ==> r.value == Product(old(nextProductId), name.value, description.value, price.value, category.value, stock.value)
      ensures r.Ok? ==> products == old(products) + [r.value] && data == map[] && timeout == map[]
      ensures nextProductId == if r.Ok? then old(nextProductId) + 1 else old(nextProductId)
      ensures nextHandle == old(nextHandle)
    {
      if !HasAllFields(name, description, price, category, stock) {
        return Err(MissingFields);
      }
      var product := Product(nextProductId, name.value, description.value, price.value, category.value, stock.value);
      assert forall i :: 0 <= i < |products| ==> products[i] in products;
      products := products + [product];
      nextProductId := nextProductId + 1;
      InvalidateCache();
      r := Ok(product);
    }

    /**
     * `updateProduct`: set the price and the stock of an existing product.
     * The cache is not invalidated, so a cached listing keeps the old values.
     */
    method UpdateProduct(id: ProductId, price: string, stock: string) returns (r: Result<Product, ProductError>)
      requires Valid()
      modifies this
      ensures Valid()
      ensures r.Err? <==> forall p :: p in old(products) ==> p.id != id
      ensures r.Err? ==> r.error == NotFound && products == old(products)
      ensures r.Ok? ==> var k := IndexOfProduct(old(products), id).value;
                        r.value == old(products)[k].(price := price, stock := stock)
                        && products == old(products)[k := r.value]
      ensures data == old(data) && timeout == old(timeout)
      ensures nextHandle == old(nextHandle) && nextProductId == old(nextProductId)
    {
      var k := IndexOfProduct(products, id);
      if k.None? {
        return Err(NotFound);
      }
      var updated := products[k.value].(price := price, stock := stock);
      products := products[k.value := updated];
      assert forall p :: p in products ==> p in old(products) || p == updated;
      r := Ok(updated);
    }

    /**
     * `deleteProduct`: an unknown id answers 404 and leaves the cache alone;
     * otherwise remove the product and invalidate the cache.
     */
    method DeleteProduct(id: ProductId) returns (r: Result<Product, ProductError>)
      requires Valid()
      modifies this
      ensures Valid()
      ensures r.Err? <==> forall p :: p in old(products) ==> p.id != id
      ensures r.Err? ==> r.error == NotFound && products == old(products) && data == old(data) && timeout == old(timeout)
      ensures r.Ok? ==> r.value in old(products) && r.value.id == id
      ensures r.Ok? ==> forall p :: p in products <==> p in old(products) && p.id != id
      ensures r.Ok? ==> var k := IndexOfProduct(old(products), id).value;
                        r.value == old(products)[k] && products == old(products)[..k] + old(products)[k + 1..]
      ensures r.Ok? ==> data == map[] && timeout == map[]
      ensures nextHandle == old(nextHandle) && nextProductId == old(nextProductId)
    {
      var k := IndexOfProduct(products, id);
      if k.None? {
        return Err(NotFound);
      }
      var removed := products[k.value];
      RemoveProductAt(products, k.value);
      products := products[..k.value] + products[k.value + 1..];
      InvalidateCache();
      r := Ok(removed);
    }
  }

  lemma RemoveProductAt(ps: seq<Product>, k: nat)
    requires k < |ps| && UniqueProductIds(ps)
    ensures UniqueProductIds(ps[..k] + ps[k + 1..])
    ensures forall p :: p in ps[..k] + ps[k + 1..] <==> p in ps && p.id != ps[k].id
  {
    var s := ps[..k] + ps[k + 1..];
    assert forall i :: 0 <= i < |s| ==> s[i] == ps[if i < k then i else i + 1];
    forall p ensures p in s <==> p in ps && p.id != ps[k].id {
      if p in ps && p.id != ps[k].id {
        var i :| 0 <= i < |ps| && ps[i] == p;
        assert s[if i < k then i else i - 1] == p;
      }
    }
  }
}
