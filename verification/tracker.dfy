/** The monitoring page's tracked-product list: the notification toggle, the
    three dashboard figures (tracked count, average savings, active
    notifications) and the seed list the page starts from. */
module Tracker {
  import opened Wrappers
  import opened Marketplaces
  import Seqs

  datatype PricePoint = PricePoint(date: string, price: int)

  datatype Product = Product(
    id: string,
    name: string,
    currentPrice: int,
    targetPrice: int,
    marketplace: Marketplace,
    imageUrl: string,
    articleNumber: string,
    priceHistory: seq<PricePoint>,
    notifications: bool)

  /** No two products share an id. */
  predicate UniqueIds(products: seq<Product>) {
    forall i, j :: 0 <= i < j < |products| ==> products[i].id != products[j].id
  }

  /** `p` and `q` agree on every field except possibly `notifications`. */
  predicate SameButNotifications(p: Product, q: Product) {
    p.(notifications := q.notifications) == q
  }

  // ---------------------------------------------------------------------------
  // Notification toggle

  /** Maps over the list, negating `notifications` on every product whose id
      is `productId` and returning every other product as it was. */
  function ToggleNotifications(products: seq<Product>, productId: string): (r: seq<Product>)
    ensures |r| == |products|
    ensures forall i :: 0 <= i < |products| ==> r[i].id == products[i].id
    ensures forall i :: 0 <= i < |products| && products[i].id != productId ==> r[i] == products[i]
    ensures forall i :: 0 <= i < |products| && products[i].id == productId ==>
              r[i].notifications == !products[i].notifications && SameButNotifications(products[i], r[i])
    decreases |products|
  {
    if |products| == 0 then []
    else
      var p := products[0];
      [if p.id == productId then p.(notifications := !p.notifications) else p]
        + ToggleNotifications(products[1..], productId)
  }

  /** Toggling the same id twice restores the list. */
  lemma ToggleTwiceRestores(products: seq<Product>, productId: string)
    ensures ToggleNotifications(ToggleNotifications(products, productId), productId) == products
  {
  }

  /** Toggling an id no product carries leaves the list unchanged. */
  lemma ToggleAbsentIsIdentity(products: seq<Product>, productId: string)
    requires forall i :: 0 <= i < |products| ==> products[i].id != productId
    ensures ToggleNotifications(products, productId) == products
  {
  }

  // ---------------------------------------------------------------------------
  // Active-notification count

  predicate IsActive(p: Product) {
    p.notifications
  }

  /** `products.filter(p => p.notifications)`: exactly the products with
      notifications on, in list order (`Seqs.FilterCounts` gives each one's
      multiplicity). */
  function ActiveProducts(products: seq<Product>): (r: seq<Product>)
    ensures forall i :: 0 <= i < |r| ==> r[i].notifications && r[i] in products
    ensures forall i :: 0 <= i < |products| && products[i].notifications ==> products[i] in r
  {
    Seqs.Filter(products, IsActive)
  }

  /** The "active notifications" figure: the length of the filtered list. */
  function ActiveCount(products: seq<Product>): (n: nat)
    ensures n <= |products|
    ensures n == 0 <==> forall i :: 0 <= i < |products| ==> !products[i].notifications
  {
    var active := ActiveProducts(products);
    assert |active| > 0 ==> active[0] in products;
    |active|
  }

  /** The notification flags, position by position. */
  function Flags(products: seq<Product>): seq<bool> {
    seq(|products|, i requires 0 <= i < |products| => products[i].notifications)
  }

  /** The active count is the number of `true` flags in the list. */
  lemma {:induction false} ActiveCountCountsTrueFlags(products: seq<Product>)
    ensures ActiveCount(products) == multiset(Flags(products))[true]
    decreases |products|
  {
    if |products| > 0 {
      ActiveCountCountsTrueFlags(products[1..]);
      assert Flags(products) == [products[0].notifications] + Flags(products[1..]);
    }
  }

  /** With unique ids, toggling the product with id `productId` changes the
      active count by exactly one: down if it was on, up if it was off. */
  lemma {:induction false} ToggleShiftsActiveCount(products: seq<Product>, productId: string, k: nat)
    requires UniqueIds(products)
    requires k < |products| && products[k].id == productId
    ensures ActiveCount(ToggleNotifications(products, productId))
            == ActiveCount(products) + (if products[k].notifications then -1 else 1)
    decreases |products|
  {
    var toggled := ToggleNotifications(products, productId);
    assert toggled[1..] == ToggleNotifications(products[1..], productId);
    if k == 0 {
      forall i | 0 <= i < |products[1..]| ensures products[1..][i].id != productId {
        assert products[0].id != products[i + 1].id;
      }
      ToggleAbsentIsIdentity(products[1..], productId);
    } else {
      ToggleShiftsActiveCount(products[1..], productId, k - 1);
    }
  }

  // ---------------------------------------------------------------------------
  // Savings

  /** What one product adds to the savings total: nothing while it is below
      its target, otherwise the (non-positive) gap `targetPrice - currentPrice`;
      that is, the smaller of 0 and that gap. */
  function Contribution(p: Product): (c: int)
    ensures c <= 0
    ensures c == if p.targetPrice - p.currentPrice < 0 then p.targetPrice - p.currentPrice else 0
  {
    if p.currentPrice < p.targetPrice then 0 else p.targetPrice - p.currentPrice
  }

  /** `products.reduce((acc, p) => acc + Contribution(p), acc)`: the left fold
      the page evaluates. */
  function SavingsFold(products: seq<Product>, acc: int): (r: int)
    ensures r <= acc
    decreases |products|
  {
    if |products| == 0 then acc
    else SavingsFold(products[1..], acc + Contribution(products[0]))
  }

  /** The sum of all contributions, as an independent reference for the fold.
      It is never positive, and it is zero exactly when no product is priced
      above its target. */
  function SavingsSum(products: seq<Product>): (r: int)
    ensures r <= 0
    ensures r == 0 <==> forall i :: 0 <= i < |products| ==> products[i].currentPrice <= products[i].targetPrice
    decreases |products|
  {
    if |products| == 0 then 0
    else
      var rest := SavingsSum(products[1..]);
      assert forall i :: 1 <= i < |products| ==> products[1..][i - 1] == products[i];
      Contribution(products[0]) + rest
  }

  /** The left fold from any accumulator adds the reference sum to it. */
  lemma {:induction false} FoldIsSum(products: seq<Product>, acc: int)
    ensures SavingsFold(products, acc) == acc + SavingsSum(products)
    decreases |products|
  {
    if |products| > 0 {
      FoldIsSum(products[1..], acc + Contribution(products[0]));
    }
  }

  /** The page's `totalSavings`. */
  function TotalSavings(products: seq<Product>): (r: int)
    ensures r == SavingsSum(products)
  {
    FoldIsSum(products, 0);
    SavingsFold(products, 0)
  }

  /** `totalSavings` is never positive, and is zero exactly when every product
      is at or below its target price. */
  lemma TotalSavingsSign(products: seq<Product>)
    ensures TotalSavings(products) <= 0
    ensures TotalSavings(products) == 0 <==>
              forall i :: 0 <= i < |products| ==> products[i].currentPrice <= products[i].targetPrice
  {
  }

  // ---------------------------------------------------------------------------
  // Average savings: Math.round(totalSavings / products.length)

  /** JavaScript's `Math.round(a / n)` for integers, computed exactly: the
      integer nearest to a/n, halves rounded toward +infinity. The result is
      the unique integer r with r - 1/2 <= a/n < r + 1/2. */
  function RoundHalfUp(a: int, n: nat): (r: int)
    requires n > 0
    ensures 2 * n * r - n <= 2 * a < 2 * n * r + n
  {
    var q := (2 * a + n) / (2 * n);
    var m := (2 * a + n) % (2 * n);
    assert 2 * a + n == 2 * n * q + m;
    q
  }

  /** No other integer satisfies the rounding bounds. */
  lemma RoundHalfUpUnique(a: int, n: nat, r: int)
    requires n > 0
    requires 2 * n * r - n <= 2 * a < 2 * n * r + n
    ensures r == RoundHalfUp(a, n)
  {
    var q := RoundHalfUp(a, n);
    var w := 2 * n;
    assert w * (r - q) < w by {
      assert w * (r - q) == w * r - w * q;
    }
    assert w * (q - r) < w by {
      assert w * (q - r) == w * q - w * r;
    }
    if r - q >= 1 {
      AtLeastFactor(w, r - q);
      assert false;
    }
    if q - r >= 1 {
      AtLeastFactor(w, q - r);
      assert false;
    }
  }

  /** A positive factor times a positive integer is at least that factor. */
  lemma AtLeastFactor(w: int, d: int)
    requires w > 0 && d >= 1
    ensures w * d >= w
  {
    assert w * d == w * (d - 1) + w;
  }

  /** The "average savings" figure; `None` stands for the NaN the page shows
      when the list is empty, since nothing guards the division. A defined
      average is never positive. */
  function AverageSavings(products: seq<Product>): (r: Option<int>)
    ensures r.None? <==> |products| == 0
    ensures r.Some? ==> r.value <= 0
    ensures r.Some? ==> 2 * |products| * r.value - |products| <= 2 * TotalSavings(products)
                                                            < 2 * |products| * r.value + |products|
  {
    if |products| == 0 then None
    else
      var n := |products|;
      var total := TotalSavings(products);
      var r := RoundHalfUp(total, n);
      Some(r)
  }

  // ---------------------------------------------------------------------------
  // The dashboard and the seed list

  datatype Dashboard = Dashboard(tracked: nat, averageSavings: Option<int>, activeNotifications: nat)

  /** The three figures the page shows above the product list. */
  function Figures(products: seq<Product>): (d: Dashboard)
    ensures d.tracked == |products|
    ensures d.activeNotifications <= d.tracked
    ensures d.activeNotifications == ActiveCount(products)
    ensures d.averageSavings == AverageSavings(products)
    ensures d.averageSavings.None? <==> d.tracked == 0
  {
    Dashboard(|products|, AverageSavings(products), ActiveCount(products))
  }

  const PlaceholderImage: string := "https://v3b.fal.media/files/b/tiger/VE2W3iEsEdBTX4cu_Tmko_output.png"

  function History(p1: int, p2: int, p3: int, p4: int): seq<PricePoint> {
    [PricePoint("01.10", p1), PricePoint("05.10", p2), PricePoint("10.10", p3), PricePoint("15.10", p4)]
  }

  /** The list the page starts with. */
  function MockProducts(): seq<Product> {
    [ Product("1", "Беспроводные наушники TWS", 2499, 1999, Ozon, PlaceholderImage,
              "123456789", History(2899, 2699, 2499, 2499), true),
      Product("2", "Смарт-часы Xiaomi", 4999, 4500, Wildberries, PlaceholderImage,
              "987654321", History(5499, 5299, 4999, 4999), true),
      Product("3", "Фитнес-браслет Mi Band", 1799, 1500, Ozon, PlaceholderImage,
              "456789123", History(1999, 1899, 1799, 1799), false) ]
  }

  /** The figures the page shows for its seed list: 3 products with distinct
      ids, 2 active notifications, savings -500 - 499 - 299 = -1298, and
      Math.round(-1298 / 3) = Math.round(-432.67) = -433. */
  lemma SeedFigures()
    ensures UniqueIds(MockProducts())
    ensures TotalSavings(MockProducts()) == -1298
    ensures Figures(MockProducts()) == Dashboard(3, Some(-433), 2)
  {
    SeedSavings();
    SeedActive();
    RoundHalfUpUnique(-1298, 3, -433);
  }

  /** The seed savings: -500 - 499 - 299. */
  lemma SeedSavings()
    ensures SavingsSum(MockProducts()) == -1298
  {
    var ps := MockProducts();
    assert ps[1..][1..][1..] == [];
    assert SavingsSum(ps[1..][1..]) == -299;
    assert SavingsSum(ps[1..]) == -798;
  }

  /** The first two seed products have notifications on, the third not. */
  lemma SeedActive()
    ensures MockProducts()[0].notifications && MockProducts()[1].notifications
    ensures !MockProducts()[2].notifications
    ensures ActiveCount(MockProducts()) == 2
  {
    var ps := MockProducts();
    assert ps[0].notifications && ps[1].notifications && !ps[2].notifications;
    assert ps[1..][1..][1..] == [];
    assert Seqs.Filter(ps[1..][1..], IsActive) == [];
    assert Seqs.Filter(ps[1..], IsActive) == [ps[1]];
    assert Seqs.Filter(ps, IsActive) == [ps[0], ps[1]];
  }
}
