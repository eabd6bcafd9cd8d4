/**
 * The query layer (`DataAccessLayer` in DataBaseLib/DataAccessLayer.cs):
 * seven analytic queries over the store's tables, three Id-existence checks
 * and four table validators.
 *
 * Every member reads the store's current tables, `db.tables`, and never
 * changes them. The source reads each table with `GetTable`, which throws
 * when the table is absent; a query that reads an absent table therefore
 * fails here with `TableNotFound`, in the order the source reads its tables,
 * except where the source catches the failure.
 */
module DataAccessLayer {
  import opened Wrappers
  import opened Entities
  import opened Linq
  import opened Store

  // ---------------------------------------------------------------------------
  // Typed views of the tables (`GetTable<T>()`)

  /** The shop rows of a table, in order; on a table of shops, all of them. */
  function Shops(rows: seq<Entity>): (r: seq<Shop>)
    ensures forall x | x in r :: ShopRow(x) in rows
    ensures OfKind(rows, ShopKind) ==> |r| == |rows| && forall i | 0 <= i < |rows| :: rows[i] == ShopRow(r[i])
  {
    if rows == [] then []
    else
      var rest := Shops(rows[1..]);
      assert forall i | 0 < i < |rows| :: rows[1..][i - 1] == rows[i];
      (if rows[0].ShopRow? then [rows[0].shop] else []) + rest
  }

  /** The buyer rows of a table, in order; on a table of buyers, all of them. */
  function Buyers(rows: seq<Entity>): (r: seq<Buyer>)
    ensures forall x | x in r :: BuyerRow(x) in rows
    ensures OfKind(rows, BuyerKind) ==> |r| == |rows| && forall i | 0 <= i < |rows| :: rows[i] == BuyerRow(r[i])
  {
    if rows == [] then []
    else
      var rest := Buyers(rows[1..]);
      assert forall i | 0 < i < |rows| :: rows[1..][i - 1] == rows[i];
      (if rows[0].BuyerRow? then [rows[0].buyer] else []) + rest
  }

  /** The good rows of a table, in order; on a table of goods, all of them. */
  function Goods(rows: seq<Entity>): (r: seq<Good>)
    ensures forall x | x in r :: GoodRow(x) in rows
    ensures OfKind(rows, GoodKind) ==> |r| == |rows| && forall i | 0 <= i < |rows| :: rows[i] == GoodRow(r[i])
  {
    if rows == [] then []
    else
      var rest := Goods(rows[1..]);
      assert forall i | 0 < i < |rows| :: rows[1..][i - 1] == rows[i];
      (if rows[0].GoodRow? then [rows[0].good] else []) + rest
  }

  /** The sale rows of a table, in order; on a table of sales, all of them. */
  function Sales(rows: seq<Entity>): (r: seq<Sale>)
    ensures forall x | x in r :: SaleRow(x) in rows
    ensures OfKind(rows, SaleKind) ==> |r| == |rows| && forall i | 0 <= i < |rows| :: rows[i] == SaleRow(r[i])
  {
    if rows == [] then []
    else
      var rest := Sales(rows[1..]);
      assert forall i | 0 < i < |rows| :: rows[1..][i - 1] == rows[i];
      (if rows[0].SaleRow? then [rows[0].sale] else []) + rest
  }

  function ShopTable(tables: Tables): (r: Result<seq<Shop>>)
    ensures r == if ShopKind in tables then Ok(Shops(tables[ShopKind])) else Err(TableNotFound(ShopKind))
  {
    match Lookup(tables, ShopKind)
    case Err(e) => Err(e)
    case Ok(rows) => Ok(Shops(rows))
  }

  function BuyerTable(tables: Tables): (r: Result<seq<Buyer>>)
    ensures r == if BuyerKind in tables then Ok(Buyers(tables[BuyerKind])) else Err(TableNotFound(BuyerKind))
  {
    match Lookup(tables, BuyerKind)
    case Err(e) => Err(e)
    case Ok(rows) => Ok(Buyers(rows))
  }

  function GoodTable(tables: Tables): (r: Result<seq<Good>>)
    ensures r == if GoodKind in tables then Ok(Goods(tables[GoodKind])) else Err(TableNotFound(GoodKind))
  {
    match Lookup(tables, GoodKind)
    case Err(e) => Err(e)
    case Ok(rows) => Ok(Goods(rows))
  }

  function SaleTable(tables: Tables): (r: Result<seq<Sale>>)
    ensures r == if SaleKind in tables then Ok(Sales(tables[SaleKind])) else Err(TableNotFound(SaleKind))
  {
    match Lookup(tables, SaleKind)
    case Err(e) => Err(e)
    case Ok(rows) => Ok(Sales(rows))
  }

  // ---------------------------------------------------------------------------
  // Goods of the buyer with the longest name

  /** `string.Length`: the number of UTF-16 code units, two for a character
      outside the Basic Multilingual Plane. */
  function Utf16Length(s: string): nat {
    if s == [] then 0 else (if s[0] as int < 0x1_0000 then 1 else 2) + Utf16Length(s[1..])
  }

  /** A string has between one and two code units per character, and exactly
      one per character when none lies outside the Basic Multilingual Plane. */
  lemma {:induction false} Utf16LengthBounds(s: string)
    ensures |s| <= Utf16Length(s) <= 2 * |s|
    ensures (forall i | 0 <= i < |s| :: s[i] as int < 0x1_0000) ==> Utf16Length(s) == |s|
  {
    if s != [] {
      Utf16LengthBounds(s[1..]);
      assert forall i | 0 < i < |s| :: s[1..][i - 1] == s[i];
    }
  }

  /** The `MaxBy` key at DataAccessLayer.cs:19 is the tuple
      (Name.Length, Name, Id), compared component by component. */
  predicate KeyLess(a: Buyer, b: Buyer)
    requires a.name.Some? && b.name.Some?
  {
    var x, y := a.name.value, b.name.value;
    Utf16Length(x) < Utf16Length(y) ||
    (Utf16Length(x) == Utf16Length(y) && (OrdinalLess(x, y) || (x == y && a.id < b.id)))
  }

  lemma KeyLessAsymmetric(a: Buyer, b: Buyer)
    requires a.name.Some? && b.name.Some?
    requires KeyLess(a, b)
    ensures !KeyLess(b, a)
  {
    var x, y := a.name.value, b.name.value;
    OrdinalLessIrreflexive(x);
    if Utf16Length(x) == Utf16Length(y) && OrdinalLess(x, y) && OrdinalLess(y, x) {
      OrdinalLessTransitive(x, y, x);
    }
  }

  /** Not-less is transitive: the key order is a strict weak order, so the
      first maximal buyer is well defined. */
  lemma KeyNotLessTransitive(a: Buyer, b: Buyer, c: Buyer)
    requires a.name.Some? && b.name.Some? && c.name.Some?
    requires !KeyLess(a, b) && !KeyLess(b, c)
    ensures !KeyLess(a, c)
  {
    var x, y, z := a.name.value, b.name.value, c.name.value;
    OrdinalLessIrreflexive(x);
    if x != y { OrdinalLessTotal(x, y); }
    if y != z { OrdinalLessTotal(y, z); }
    if Utf16Length(x) == Utf16Length(y) == Utf16Length(z) && OrdinalLess(y, x) && OrdinalLess(z, y) {
      OrdinalLessTransitive(z, y, x);
    }
    if Utf16Length(x) == Utf16Length(z) && OrdinalLess(x, z) && OrdinalLess(z, x) {
      OrdinalLessTransitive(x, z, x);
    }
  }

  /** The position `MaxBy` selects over buyers whose names are all set: a
      buyer no other buyer's key exceeds, and the first such. Hence the name
      is a longest one, and among equal names the Id is the largest. */
  function LongestNameIndex(buyers: seq<Buyer>): (i: nat)
    requires |buyers| > 0
    requires forall j | 0 <= j < |buyers| :: buyers[j].name.Some?
    ensures i < |buyers|
    ensures forall j | 0 <= j < |buyers| :: !KeyLess(buyers[i], buyers[j])
    ensures forall j | 0 <= j < i :: KeyLess(buyers[j], buyers[i])
    ensures forall j | 0 <= j < |buyers| :: Utf16Length(buyers[j].name.value) <= Utf16Length(buyers[i].name.value)
    ensures forall j | 0 <= j < |buyers| && buyers[j].name == buyers[i].name :: buyers[j].id <= buyers[i].id
  {
    if |buyers| == 1 then
      OrdinalLessIrreflexive(buyers[0].name.value);
      0
    else
      var m := 1 + LongestNameIndex(buyers[1..]);
      assert forall j | 1 <= j < |buyers| :: buyers[j] == buyers[1..][j - 1];
      if KeyLess(buyers[0], buyers[m]) then
        KeyLessAsymmetric(buyers[0], buyers[m]);
        m
      else
        assert forall j | 0 <= j < |buyers| :: !KeyLess(buyers[0], buyers[j]) by {
          forall j | 0 <= j < |buyers| ensures !KeyLess(buyers[0], buyers[j]) {
            if j == 0 {
              OrdinalLessIrreflexive(buyers[0].name.value);
            } else {
              KeyNotLessTransitive(buyers[0], buyers[m], buyers[j]);
            }
          }
        }
        0
  }

  /** The Id `MaxBy(...)?.Id` yields: none for an empty table, otherwise the
      Id of a buyer whose key no other buyer's exceeds. */
  function LongestNameBuyerId(buyers: seq<Buyer>): (r: Option<int>)
    requires forall j | 0 <= j < |buyers| :: buyers[j].name.Some?
    ensures r.None? <==> buyers == []
    ensures r.Some? ==> exists i | 0 <= i < |buyers| ::
      buyers[i].id == r.value && forall j | 0 <= j < |buyers| :: !KeyLess(buyers[i], buyers[j])
  {
    if buyers == [] then None else Some(buyers[LongestNameIndex(buyers)].id)
  }

  /** Every good whose Id is `goodId`, in good order. */
  function GoodsWithId(goods: seq<Good>, goodId: int): seq<Good> {
    if goods == [] then []
    else (if goods[0].id == goodId then [goods[0]] else []) + GoodsWithId(goods[1..], goodId)
  }

  /** Reference, sale by sale: for each sale to `buyerId`, in sale order, the
      goods with the sale's GoodId, in good order. */
  function GoodsSoldTo(sales: seq<Sale>, goods: seq<Good>, buyerId: Option<int>): seq<Good> {
    if sales == [] then []
    else
      (if Some(sales[0].buyerId) == buyerId then GoodsWithId(goods, sales[0].goodId) else [])
      + GoodsSoldTo(sales[1..], goods, buyerId)
  }

  /** One sale's partners among the goods, projected on the good. */
  lemma {:induction false} PartnerGoods(s: Sale, goods: seq<Good>)
    ensures Select(Partners(s, goods, (s: Sale, g: Good) => s.goodId == g.id), (p: (Sale, Good)) => p.1)
      == GoodsWithId(goods, s.goodId)
  {
    var on := (s: Sale, g: Good) => s.goodId == g.id;
    var f := (p: (Sale, Good)) => p.1;
    if goods != [] {
      var head: seq<(Sale, Good)> := if on(s, goods[0]) then [(s, goods[0])] else [];
      assert Partners(s, goods, on) == head + Partners(s, goods[1..], on);
      SelectAppend(head, Partners(s, goods[1..], on), f);
      PartnerGoods(s, goods[1..]);
    }
  }

  /** The query expression of DataAccessLayer.cs:21-25 computes `GoodsSoldTo`. */
  lemma {:induction false} GoodsBoughtJoin(sales: seq<Sale>, goods: seq<Good>, buyerId: Option<int>)
    ensures Select(Join(Where(sales, (s: Sale) => Some(s.buyerId) == buyerId), goods,
                        (s: Sale, g: Good) => s.goodId == g.id), (p: (Sale, Good)) => p.1)
      == GoodsSoldTo(sales, goods, buyerId)
  {
    var byBuyer := (s: Sale) => Some(s.buyerId) == buyerId;
    var on := (s: Sale, g: Good) => s.goodId == g.id;
    var f := (p: (Sale, Good)) => p.1;
    if sales != [] {
      var head := if byBuyer(sales[0]) then [sales[0]] else [];
      var rest := Where(sales[1..], byBuyer);
      assert Where(sales, byBuyer) == head + rest;
      JoinAppend(head, rest, goods, on);
      SelectAppend(Join(head, goods, on), Join(rest, goods, on), f);
      if byBuyer(sales[0]) {
        PartnerGoods(sales[0], goods);
      }
      GoodsBoughtJoin(sales[1..], goods, buyerId);
    }
  }

  /** For every sale by the buyer with Id `buyerId`, in sale order, every good
      whose Id is the sale's GoodId, in good order; nothing when there is no
      such buyer. */
  function GoodsBoughtBy(sales: seq<Sale>, goods: seq<Good>, buyerId: Option<int>): (r: seq<Good>)
    ensures r == GoodsSoldTo(sales, goods, buyerId)
    ensures buyerId == None ==> r == []
  {
    var byBuyer := (s: Sale) => Some(s.buyerId) == buyerId;
    var bought := Where(sales, byBuyer);
    assert buyerId == None ==> bought == [] by {
      if buyerId == None {
        WhereNone(sales, byBuyer);
      }
    }
    GoodsBoughtJoin(sales, goods, buyerId);
    Select(Join(bought, goods, (s: Sale, g: Good) => s.goodId == g.id), (p: (Sale, Good)) => p.1)
  }

  lemma GoodsBoughtByMembers(sales: seq<Sale>, goods: seq<Good>, buyerId: Option<int>, g: Good)
    ensures g in GoodsBoughtBy(sales, goods, buyerId) <==>
      g in goods && exists s | s in sales :: Some(s.buyerId) == buyerId && s.goodId == g.id
  {
    var byBuyer := (s: Sale) => Some(s.buyerId) == buyerId;
    var on := (s: Sale, g: Good) => s.goodId == g.id;
    var bought := Where(sales, byBuyer);
    var joined := Join(bought, goods, on);
    var r := GoodsBoughtBy(sales, goods, buyerId);
    assert |r| == |joined| && forall i | 0 <= i < |r| :: r[i] == joined[i].1;
    if g in r {
      var i :| 0 <= i < |r| && r[i] == g;
      JoinMember(bought, goods, on, joined[i].0, g);
      WhereMember(sales, byBuyer, joined[i].0);
    }
    if s :| s in sales && Some(s.buyerId) == buyerId && s.goodId == g.id {
      if g in goods {
        WhereMember(sales, byBuyer, s);
        JoinMember(bought, goods, on, s, g);
        var k :| 0 <= k < |joined| && joined[k] == (s, g);
        assert r[k] == g;
      }
    }
  }

  /** DataAccessLayer.cs:14-31. A null name makes the key selector throw a
      `NullReferenceException`, which is caught: the result is empty and the
      sale and good tables are not read. */
  function GetAllGoodsOfLongestNameBuyer(tables: Tables): (r: Result<seq<Good>>)
    ensures BuyerKind !in tables ==> r == Err(TableNotFound(BuyerKind))
    ensures BuyerKind in tables && (exists b | b in Buyers(tables[BuyerKind]) :: b.name.None?) ==> r == Ok([])
    ensures BuyerKind in tables && (forall j | 0 <= j < |Buyers(tables[BuyerKind])| :: Buyers(tables[BuyerKind])[j].name.Some?) ==>
      && (SaleKind !in tables ==> r == Err(TableNotFound(SaleKind)))
      && (SaleKind in tables && GoodKind !in tables ==> r == Err(TableNotFound(GoodKind)))
      && (SaleKind in tables && GoodKind in tables ==>
            r == Ok(GoodsSoldTo(Sales(tables[SaleKind]), Goods(tables[GoodKind]), LongestNameBuyerId(Buyers(tables[BuyerKind])))))
    ensures r.Err? ==> r.error.TableNotFound? && r.error.kind !in tables
    ensures BuyerKind in tables && SaleKind in tables && GoodKind in tables ==> r.Ok?
    ensures r.Ok? && Buyers(tables[BuyerKind]) == [] ==> r == Ok([])
  {
    match BuyerTable(tables)
    case Err(e) => Err(e)
    case Ok(buyers) =>
      var unnamed := (b: Buyer) => b.name.None?;
      NoneSatisfies(buyers, unnamed);
      if Any(buyers, unnamed) then Ok([])
      else
        var id := LongestNameBuyerId(buyers);
        match SaleTable(tables)
        case Err(e) => Err(e)
        case Ok(sales) =>
          match GoodTable(tables)
          case Err(e) => Err(e)
          case Ok(goods) => Ok(GoodsBoughtBy(sales, goods, id))
  }

  /** With every table present and every name set, the query returns, sale by
      sale, the goods sold to the buyer with the greatest (length, name, Id)
      key: a good is in the result exactly when such a sale names it. */
  lemma LongestNameBuyerGoods(tables: Tables, g: Good)
    requires BuyerKind in tables && SaleKind in tables && GoodKind in tables
    requires Buyers(tables[BuyerKind]) != []
    requires forall b | b in Buyers(tables[BuyerKind]) :: b.name.Some?
    ensures var buyers := Buyers(tables[BuyerKind]);
      var chosen := buyers[LongestNameIndex(buyers)];
      GetAllGoodsOfLongestNameBuyer(tables) == Ok(GoodsSoldTo(Sales(tables[SaleKind]), Goods(tables[GoodKind]), Some(chosen.id))) &&
      (g in GetAllGoodsOfLongestNameBuyer(tables).value <==>
        g in Goods(tables[GoodKind]) &&
        exists s | s in Sales(tables[SaleKind]) :: s.buyerId == chosen.id && s.goodId == g.id)
  {
    var buyers := Buyers(tables[BuyerKind]);
    assert !Any(buyers, (b: Buyer) => b.name.None?);
    GoodsBoughtByMembers(Sales(tables[SaleKind]), Goods(tables[GoodKind]), LongestNameBuyerId(buyers), g);
  }

  /** Two buyers with the same name: the one with the larger Id is chosen,
      whichever comes first. */
  lemma TieGoesToLargerId(b1: Buyer, b2: Buyer)
    requires b1.name.Some? && b1.name == b2.name && b1.id < b2.id
    ensures LongestNameBuyerId([b1, b2]) == Some(b2.id)
    ensures LongestNameBuyerId([b2, b1]) == Some(b2.id)
  {
  }

  // ---------------------------------------------------------------------------
  // Category of the most expensive good

  /** `MaxBy(good => good.Price)?.Category`: the category of the first good
      of greatest price, or none when there are no goods. A good whose
      category is null yields none as well. */
  function MostExpensiveCategory(goods: seq<Good>): (r: Option<string>)
    ensures goods == [] ==> r == None
    ensures goods != [] ==> exists i | 0 <= i < |goods| ::
      && r == goods[i].category
      && (forall j | 0 <= j < |goods| :: goods[j].price <= goods[i].price)
      && (forall j | 0 <= j < i :: goods[j].price < goods[i].price)
  {
    if goods == [] then None
    else
      var prices := Select(goods, (g: Good) => g.price);
      var i := FirstMaxIndex(prices);
      assert forall j | 0 <= j < |goods| :: prices[j] == goods[j].price;
      goods[i].category
  }

  /** DataAccessLayer.cs:39-40. */
  function GetMostExpensiveGoodCategory(tables: Tables): (r: Result<Option<string>>)
    ensures GoodKind !in tables ==> r == Err(TableNotFound(GoodKind))
    ensures GoodKind in tables ==> r == Ok(MostExpensiveCategory(Goods(tables[GoodKind])))
  {
    match GoodTable(tables)
    case Err(e) => Err(e)
    case Ok(goods) => Ok(MostExpensiveCategory(goods))
  }

  // ---------------------------------------------------------------------------
  // City with the smallest sales value

  /** The (city, value) pair of sale `s` of good `g` at every shop with the
      sale's ShopId, in shop order. */
  function ShopCityValues(s: Sale, g: Good, shops: seq<Shop>): seq<(Option<string>, int)> {
    if shops == [] then []
    else
      (if s.shopId == shops[0].id then [(shops[0].city, g.price * s.goodCount)] else [])
      + ShopCityValues(s, g, shops[1..])
  }

  /** The pairs of sale `s`: for every good with its GoodId, in good order,
      its pairs with the shops. */
  function SaleCityValues(s: Sale, goods: seq<Good>, shops: seq<Shop>): seq<(Option<string>, int)> {
    if goods == [] then []
    else
      (if s.goodId == goods[0].id then ShopCityValues(s, goods[0], shops) else [])
      + SaleCityValues(s, goods[1..], shops)
  }

  /** Reference, sale by sale: one (shop city, Price * GoodCount) pair per
      (sale, good, shop) triple that matches, in sale, then good, then shop
      order. */
  function CityValues(sales: seq<Sale>, goods: seq<Good>, shops: seq<Shop>): seq<(Option<string>, int)> {
    if sales == [] then [] else SaleCityValues(sales[0], goods, shops) + CityValues(sales[1..], goods, shops)
  }

  lemma {:induction false} ShopCityValuesJoin(s: Sale, g: Good, shops: seq<Shop>)
    ensures Select(Partners((s, g), shops, (p: (Sale, Good), sh: Shop) => p.0.shopId == sh.id),
                   (t: ((Sale, Good), Shop)) => (t.1.city, t.0.1.price * t.0.0.goodCount))
      == ShopCityValues(s, g, shops)
  {
    var onShop := (p: (Sale, Good), sh: Shop) => p.0.shopId == sh.id;
    var f := (t: ((Sale, Good), Shop)) => (t.1.city, t.0.1.price * t.0.0.goodCount);
    if shops != [] {
      var head: seq<((Sale, Good), Shop)> := if onShop((s, g), shops[0]) then [((s, g), shops[0])] else [];
      assert Partners((s, g), shops, onShop) == head + Partners((s, g), shops[1..], onShop);
      SelectAppend(head, Partners((s, g), shops[1..], onShop), f);
      ShopCityValuesJoin(s, g, shops[1..]);
    }
  }

  lemma {:induction false} SaleCityValuesJoin(s: Sale, goods: seq<Good>, shops: seq<Shop>)
    ensures Select(Join(Partners(s, goods, (s: Sale, g: Good) => s.goodId == g.id), shops,
                        (p: (Sale, Good), sh: Shop) => p.0.shopId == sh.id),
                   (t: ((Sale, Good), Shop)) => (t.1.city, t.0.1.price * t.0.0.goodCount))
      == SaleCityValues(s, goods, shops)
  {
    var onGood := (s: Sale, g: Good) => s.goodId == g.id;
    var onShop := (p: (Sale, Good), sh: Shop) => p.0.shopId == sh.id;
    var f := (t: ((Sale, Good), Shop)) => (t.1.city, t.0.1.price * t.0.0.goodCount);
    if goods != [] {
      var head: seq<(Sale, Good)> := if onGood(s, goods[0]) then [(s, goods[0])] else [];
      var rest := Partners(s, goods[1..], onGood);
      assert Partners(s, goods, onGood) == head + rest;
      JoinAppend(head, rest, shops, onShop);
      SelectAppend(Join(head, shops, onShop), Join(rest, shops, onShop), f);
      if onGood(s, goods[0]) {
        ShopCityValuesJoin(s, goods[0], shops);
      }
      SaleCityValuesJoin(s, goods[1..], shops);
    }
  }

  /** The query expression of DataAccessLayer.cs:47-49 computes `CityValues`. */
  lemma {:induction false} CitySalesJoin(sales: seq<Sale>, goods: seq<Good>, shops: seq<Shop>)
    ensures Select(Join(Join(sales, goods, (s: Sale, g: Good) => s.goodId == g.id), shops,
                        (p: (Sale, Good), sh: Shop) => p.0.shopId == sh.id),
                   (t: ((Sale, Good), Shop)) => (t.1.city, t.0.1.price * t.0.0.goodCount))
      == CityValues(sales, goods, shops)
  {
    var onGood := (s: Sale, g: Good) => s.goodId == g.id;
    var onShop := (p: (Sale, Good), sh: Shop) => p.0.shopId == sh.id;
    var f := (t: ((Sale, Good), Shop)) => (t.1.city, t.0.1.price * t.0.0.goodCount);
    if sales != [] {
      var first := Partners(sales[0], goods, onGood);
      var rest := Join(sales[1..], goods, onGood);
      assert Join(sales, goods, onGood) == first + rest;
      JoinAppend(first, rest, shops, onShop);
      SelectAppend(Join(first, shops, onShop), Join(rest, shops, onShop), f);
      SaleCityValuesJoin(sales[0], goods, shops);
      CitySalesJoin(sales[1..], goods, shops);
    }
  }

  /** Sale joined with Good on GoodId, then with Shop on ShopId: one
      (shop city, Price * GoodCount) pair per matching triple, in join order. */
  function CitySales(sales: seq<Sale>, goods: seq<Good>, shops: seq<Shop>): (r: seq<(Option<string>, int)>)
    ensures r == CityValues(sales, goods, shops)
  {
    var sold := Join(sales, goods, (s: Sale, g: Good) => s.goodId == g.id);
    var placed := Join(sold, shops, (p: (Sale, Good), sh: Shop) => p.0.shopId == sh.id);
    CitySalesJoin(sales, goods, shops);
    Select(placed, (t: ((Sale, Good), Shop)) => (t.1.city, t.0.1.price * t.0.0.goodCount))
  }

  /** Each pair of `CitySales` comes from a sale, the good it names and the
      shop it names, and every such triple has its pair in the result. */
  lemma CitySalesMembers(sales: seq<Sale>, goods: seq<Good>, shops: seq<Shop>)
    ensures forall q | q in CitySales(sales, goods, shops) ::
      exists s, g, sh | s in sales && g in goods && sh in shops ::
        s.goodId == g.id && s.shopId == sh.id && q == (sh.city, g.price * s.goodCount)
    ensures forall s, g, sh | s in sales && g in goods && sh in shops && s.goodId == g.id && s.shopId == sh.id ::
      (sh.city, g.price * s.goodCount) in CitySales(sales, goods, shops)
  {
    forall q | q in CitySales(sales, goods, shops)
      ensures exists s, g, sh | s in sales && g in goods && sh in shops ::
        s.goodId == g.id && s.shopId == sh.id && q == (sh.city, g.price * s.goodCount)
    {
      CitySalesSound(sales, goods, shops, q);
    }
    forall s, g, sh | s in sales && g in goods && sh in shops && s.goodId == g.id && s.shopId == sh.id
      ensures (sh.city, g.price * s.goodCount) in CitySales(sales, goods, shops)
    {
      CitySalesComplete(sales, goods, shops, s, g, sh);
    }
  }

  lemma CitySalesSound(sales: seq<Sale>, goods: seq<Good>, shops: seq<Shop>, q: (Option<string>, int))
    requires q in CitySales(sales, goods, shops)
    ensures exists s, g, sh | s in sales && g in goods && sh in shops ::
      s.goodId == g.id && s.shopId == sh.id && q == (sh.city, g.price * s.goodCount)
  {
    var onGood := (s: Sale, g: Good) => s.goodId == g.id;
    var onShop := (p: (Sale, Good), sh: Shop) => p.0.shopId == sh.id;
    var sold := Join(sales, goods, onGood);
    var placed := Join(sold, shops, onShop);
    var pairs := CitySales(sales, goods, shops);
    var i :| 0 <= i < |pairs| && pairs[i] == q;
    var t := placed[i];
    assert q == (t.1.city, t.0.1.price * t.0.0.goodCount);
    JoinMember(sold, shops, onShop, t.0, t.1);
    JoinMember(sales, goods, onGood, t.0.0, t.0.1);
  }

  lemma CitySalesComplete(sales: seq<Sale>, goods: seq<Good>, shops: seq<Shop>, s: Sale, g: Good, sh: Shop)
    requires s in sales && g in goods && sh in shops && s.goodId == g.id && s.shopId == sh.id
    ensures (sh.city, g.price * s.goodCount) in CitySales(sales, goods, shops)
  {
    var onGood := (s: Sale, g: Good) => s.goodId == g.id;
    var onShop := (p: (Sale, Good), sh: Shop) => p.0.shopId == sh.id;
    var sold := Join(sales, goods, onGood);
    var placed := Join(sold, shops, onShop);
    var pairs := CitySales(sales, goods, shops);
    JoinMember(sales, goods, onGood, s, g);
    JoinMember(sold, shops, onShop, (s, g), sh);
    var k :| 0 <= k < |placed| && placed[k] == ((s, g), sh);
    assert pairs[k] == (sh.city, g.price * s.goodCount);
  }

  /** `group Price * GoodCount by City` followed by `MinBy(g => g.Sum())?.Key`:
      no city when nothing joins; otherwise the key of the chosen group (null
      when that group's city is null), a city key that occurs, with the least
      total sales value, and every city seen earlier in join order has a
      strictly larger total. */
  function MinimumSalesCity(sales: seq<Sale>, goods: seq<Good>, shops: seq<Shop>): (r: Option<string>)
    ensures CitySales(sales, goods, shops) == [] ==> r == None
    ensures CitySales(sales, goods, shops) != [] ==> IsLeastTotalKey(CitySales(sales, goods, shops), r)
  {
    var key := MinTotalKey(CitySales(sales, goods, shops));
    if key.None? then None else key.value
  }

  /** DataAccessLayer.cs:47-50: reads the sale, good and shop tables, in that order. */
  function GetMinimumSalesCity(tables: Tables): (r: Result<Option<string>>)
    ensures SaleKind !in tables ==> r == Err(TableNotFound(SaleKind))
    ensures SaleKind in tables && GoodKind !in tables ==> r == Err(TableNotFound(GoodKind))
    ensures SaleKind in tables && GoodKind in tables && ShopKind !in tables ==> r == Err(TableNotFound(ShopKind))
    ensures SaleKind in tables && GoodKind in tables && ShopKind in tables ==>
      r == Ok(MinimumSalesCity(Sales(tables[SaleKind]), Goods(tables[GoodKind]), Shops(tables[ShopKind])))
  {
    match SaleTable(tables)
    case Err(e) => Err(e)
    case Ok(sales) =>
      match GoodTable(tables)
      case Err(e) => Err(e)
      case Ok(goods) =>
        match ShopTable(tables)
        case Err(e) => Err(e)
        case Ok(shops) => Ok(MinimumSalesCity(sales, goods, shops))
  }

  // ---------------------------------------------------------------------------
  // Buyers of the most popular good

  /** `group sale.GoodCount by sale.GoodId`, as (GoodId, GoodCount) pairs. */
  function GoodCounts(sales: seq<Sale>): (r: seq<(int, int)>)
    ensures |r| == |sales|
    ensures forall j | 0 <= j < |sales| :: r[j] == (sales[j].goodId, sales[j].goodCount)
  {
    Select(sales, (s: Sale) => (s.goodId, s.goodCount))
  }

  /** The key `MaxBy` picks over the (GoodId, GoodCount) pairs, read back on
      the sales: a sold GoodId whose total count no sold good's exceeds, and
      every good first sold earlier has a strictly smaller total. */
  lemma MostSoldGood(sales: seq<Sale>, k: int)
    requires MaxTotalKey(GoodCounts(sales)) == Some(k)
    ensures exists j | 0 <= j < |sales| :: sales[j].goodId == k
    ensures forall j | 0 <= j < |sales| :: Total(GoodCounts(sales), sales[j].goodId) <= Total(GoodCounts(sales), k)
    ensures forall j | 0 <= j < |sales| && FirstIndex(GoodCounts(sales), sales[j].goodId) < FirstIndex(GoodCounts(sales), k) ::
      Total(GoodCounts(sales), sales[j].goodId) < Total(GoodCounts(sales), k)
  {
    var counts := GoodCounts(sales);
    var w := KeyWitness(counts, k);
    assert sales[w].goodId == k;
    forall j | 0 <= j < |sales|
      ensures Total(counts, sales[j].goodId) <= Total(counts, k)
      ensures FirstIndex(counts, sales[j].goodId) < FirstIndex(counts, k) ==>
        Total(counts, sales[j].goodId) < Total(counts, k)
    {
      assert counts[j].0 == sales[j].goodId;
    }
  }

  /** `MaxBy(sale => sale.Sum())?.Key` over the groups: the GoodId of
      greatest total GoodCount, the first such in order of first sale; none
      when there are no sales. */
  function MostPopularGood(sales: seq<Sale>): (r: Option<int>)
    ensures r.None? <==> sales == []
    ensures var counts := GoodCounts(sales);
      r.Some? ==>
        && (exists j | 0 <= j < |sales| :: sales[j].goodId == r.value)
        && (forall j | 0 <= j < |sales| :: Total(counts, sales[j].goodId) <= Total(counts, r.value))
        && (forall j | 0 <= j < |sales| && FirstIndex(counts, sales[j].goodId) < FirstIndex(counts, r.value) ::
              Total(counts, sales[j].goodId) < Total(counts, r.value))
  {
    var key := MaxTotalKey(GoodCounts(sales));
    if key.None? then None
    else
      MostSoldGood(sales, key.value);
      key
  }

  /** Every buyer whose Id is `buyerId`, in buyer order. */
  function BuyersWithId(buyers: seq<Buyer>, buyerId: int): seq<Buyer> {
    if buyers == [] then []
    else (if buyers[0].id == buyerId then [buyers[0]] else []) + BuyersWithId(buyers[1..], buyerId)
  }

  /** Reference, sale by sale: for each sale of good `goodId`, in sale order,
      the buyers with the sale's BuyerId, in buyer order. */
  function BuyersOfSales(sales: seq<Sale>, buyers: seq<Buyer>, goodId: int): seq<Buyer> {
    if sales == [] then []
    else
      (if sales[0].goodId == goodId then BuyersWithId(buyers, sales[0].buyerId) else [])
      + BuyersOfSales(sales[1..], buyers, goodId)
  }

  /** One sale's partners among the buyers, projected on the buyer. */
  lemma {:induction false} PartnerBuyers(s: Sale, buyers: seq<Buyer>)
    ensures Select(Partners(s, buyers, (s: Sale, b: Buyer) => s.buyerId == b.id), (p: (Sale, Buyer)) => p.1)
      == BuyersWithId(buyers, s.buyerId)
  {
    var on := (s: Sale, b: Buyer) => s.buyerId == b.id;
    var f := (p: (Sale, Buyer)) => p.1;
    if buyers != [] {
      var head: seq<(Sale, Buyer)> := if on(s, buyers[0]) then [(s, buyers[0])] else [];
      assert Partners(s, buyers, on) == head + Partners(s, buyers[1..], on);
      SelectAppend(head, Partners(s, buyers[1..], on), f);
      PartnerBuyers(s, buyers[1..]);
    }
  }

  /** The query expression of DataAccessLayer.cs:64-67 computes `BuyersOfSales`. */
  lemma {:induction false} BuyersOfGoodJoin(sales: seq<Sale>, buyers: seq<Buyer>, goodId: int)
    ensures Select(Join(Where(sales, (s: Sale) => s.goodId == goodId), buyers,
                        (s: Sale, b: Buyer) => s.buyerId == b.id), (p: (Sale, Buyer)) => p.1)
      == BuyersOfSales(sales, buyers, goodId)
  {
    var byGood := (s: Sale) => s.goodId == goodId;
    var on := (s: Sale, b: Buyer) => s.buyerId == b.id;
    var f := (p: (Sale, Buyer)) => p.1;
    if sales != [] {
      var head := if byGood(sales[0]) then [sales[0]] else [];
      var rest := Where(sales[1..], byGood);
      assert Where(sales, byGood) == head + rest;
      JoinAppend(head, rest, buyers, on);
      SelectAppend(Join(head, buyers, on), Join(rest, buyers, on), f);
      if byGood(sales[0]) {
        PartnerBuyers(sales[0], buyers);
      }
      BuyersOfGoodJoin(sales[1..], buyers, goodId);
    }
  }

  /** For every sale of good `goodId`, in sale order, every buyer whose Id is
      the sale's BuyerId, in buyer order. */
  function BuyersOfGood(sales: seq<Sale>, buyers: seq<Buyer>, goodId: int): (r: seq<Buyer>)
    ensures r == BuyersOfSales(sales, buyers, goodId)
  {
    var ofGood := Where(sales, (s: Sale) => s.goodId == goodId);
    BuyersOfGoodJoin(sales, buyers, goodId);
    Select(Join(ofGood, buyers, (s: Sale, b: Buyer) => s.buyerId == b.id), (p: (Sale, Buyer)) => p.1)
  }

  lemma BuyersOfGoodMembers(sales: seq<Sale>, buyers: seq<Buyer>, goodId: int, b: Buyer)
    ensures b in BuyersOfGood(sales, buyers, goodId) <==>
      b in buyers && exists s | s in sales :: s.goodId == goodId && s.buyerId == b.id
  {
    var byGood := (s: Sale) => s.goodId == goodId;
    var on := (s: Sale, b: Buyer) => s.buyerId == b.id;
    var ofGood := Where(sales, byGood);
    var joined := Join(ofGood, buyers, on);
    var r := BuyersOfGood(sales, buyers, goodId);
    assert |r| == |joined| && forall i | 0 <= i < |r| :: r[i] == joined[i].1;
    if b in r {
      var i :| 0 <= i < |r| && r[i] == b;
      JoinMember(ofGood, buyers, on, joined[i].0, b);
      WhereMember(sales, byGood, joined[i].0);
    }
    if s :| s in sales && s.goodId == goodId && s.buyerId == b.id {
      if b in buyers {
        WhereMember(sales, byGood, s);
        JoinMember(ofGood, buyers, on, s, b);
        var k :| 0 <= k < |joined| && joined[k] == (s, b);
        assert r[k] == b;
      }
    }
  }

  /** DataAccessLayer.cs:58-68. The buyer table is read only when there is a
      sale; then the result is, sale by sale, the buyers of the most popular
      good. */
  function GetMostPopularGoodBuyers(tables: Tables): (r: Result<seq<Buyer>>)
    ensures SaleKind !in tables ==> r == Err(TableNotFound(SaleKind))
    ensures SaleKind in tables && Sales(tables[SaleKind]) == [] ==> r == Ok([])
    ensures SaleKind in tables && Sales(tables[SaleKind]) != [] && BuyerKind !in tables ==>
      r == Err(TableNotFound(BuyerKind))
    ensures SaleKind in tables && BuyerKind in tables && Sales(tables[SaleKind]) != [] ==>
      && MostPopularGood(Sales(tables[SaleKind])).Some?
      && r == Ok(BuyersOfGood(Sales(tables[SaleKind]), Buyers(tables[BuyerKind]),
                              MostPopularGood(Sales(tables[SaleKind])).value))
    ensures SaleKind in tables && BuyerKind in tables ==>
      r.Ok? && forall b | b in r.value :: b in Buyers(tables[BuyerKind])
  {
    match SaleTable(tables)
    case Err(e) => Err(e)
    case Ok(sales) =>
      match MostPopularGood(sales)
      case None => Ok([])
      case Some(goodId) =>
        match BuyerTable(tables)
        case Err(e) => Err(e)
        case Ok(buyers) =>
          var r := BuyersOfGood(sales, buyers, goodId);
          assert forall b | b in r :: b in buyers by {
            forall b | b in r ensures b in buyers {
              BuyersOfGoodMembers(sales, buyers, goodId, b);
            }
          }
          Ok(r)
  }

  // ---------------------------------------------------------------------------
  // Fewest shops in a country

  /** `group 1 by shop.Country`, as (Country, 1) pairs. */
  function CountryPairs(shops: seq<Shop>): (r: seq<(Option<string>, int)>)
    ensures |r| == |shops|
    ensures forall j | 0 <= j < |shops| :: r[j] == (shops[j].country, 1)
  {
    Select(shops, (s: Shop) => (s.country, 1))
  }

  /** The number of shops in `country`. */
  function ShopsIn(shops: seq<Shop>, country: Option<string>): nat {
    |Where(shops, (s: Shop) => s.country == country)|
  }

  /** The group of a country holds one element per shop in it. */
  lemma {:induction false} CountryGroupSize(shops: seq<Shop>, country: Option<string>)
    ensures |ElementsOf(CountryPairs(shops), country)| == ShopsIn(shops, country)
  {
    if shops != [] {
      var n := |shops| - 1;
      assert shops == shops[..n] + [shops[n]];
      assert CountryPairs(shops)[..n] == CountryPairs(shops[..n]);
      CountryGroupSize(shops[..n], country);
      WhereSnoc(shops[..n], shops[n], (s: Shop) => s.country == country);
    }
  }

  /** The group at `m`, where `Min` stops over the group sizes, holds the
      shop count of some country that occurs, no larger than any country's. */
  lemma SmallestCountryGroup(shops: seq<Shop>, m: nat)
    requires m < |GroupBy(CountryPairs(shops))|
    requires IsFirstMin(Sizes(GroupBy(CountryPairs(shops))), m)
    ensures var n := Sizes(GroupBy(CountryPairs(shops)))[m];
      && n >= 1
      && (exists j | 0 <= j < |shops| :: n == ShopsIn(shops, shops[j].country))
      && (forall j | 0 <= j < |shops| :: n <= ShopsIn(shops, shops[j].country))
  {
    var pairs := CountryPairs(shops);
    var groups := GroupBy(pairs);
    var sizes := Sizes(groups);
    GroupByKeys(pairs);
    GroupByElements(pairs);
    var key := groups[m].key;
    assert HasKey(pairs, key);
    var w :| 0 <= w < |pairs| && pairs[w].0 == key;
    CountryGroupSize(shops, key);
    assert sizes[m] == ShopsIn(shops, shops[w].country);
    forall j | 0 <= j < |shops|
      ensures sizes[m] <= ShopsIn(shops, shops[j].country)
    {
      var i := GroupOf(pairs, j);
      CountryGroupSize(shops, shops[j].country);
      assert sizes[i] == ShopsIn(shops, shops[j].country);
    }
    assert shops[w] in Where(shops, (s: Shop) => s.country == key);
  }

  /** `Min(country => country.Count())` over the groups: 0 when there are no
      shops; otherwise the shop count of some country that occurs, no larger
      than that of any country, and so at least 1. */
  function FewestShopsInCountry(shops: seq<Shop>): (r: int)
    ensures shops == [] ==> r == 0
    ensures shops != [] ==>
      && r >= 1
      && (exists j | 0 <= j < |shops| :: r == ShopsIn(shops, shops[j].country))
      && (forall j | 0 <= j < |shops| :: r <= ShopsIn(shops, shops[j].country))
  {
    var groups := GroupBy(CountryPairs(shops));
    var sizes := Sizes(groups);
    if groups == [] then 0
    else
      var m := FirstMinIndex(sizes);
      SmallestCountryGroup(shops, m);
      sizes[m]
  }

  /** DataAccessLayer.cs:75-85: an empty table makes `Min` throw
      `InvalidOperationException`, caught and mapped to 0; an absent table is
      not caught. */
  function GetMinimumNumberOfShopsInCountry(tables: Tables): (r: Result<int>)
    ensures ShopKind !in tables ==> r == Err(TableNotFound(ShopKind))
    ensures ShopKind in tables ==> r == Ok(FewestShopsInCountry(Shops(tables[ShopKind])))
  {
    match ShopTable(tables)
    case Err(e) => Err(e)
    case Ok(shops) => Ok(FewestShopsInCountry(shops))
  }

  // ---------------------------------------------------------------------------
  // Sales made outside the buyer's city

  /** Sale `s` once for every buyer with its BuyerId whose city differs from
      that of shop `sh`, in buyer order. */
  function SaleElsewhereAt(s: Sale, sh: Shop, buyers: seq<Buyer>): seq<Sale> {
    if buyers == [] then []
    else
      (if s.buyerId == buyers[0].id && sh.city != buyers[0].city then [s] else [])
      + SaleElsewhereAt(s, sh, buyers[1..])
  }

  /** Sale `s`, for every shop with its ShopId in shop order, once per buyer
      in another city. */
  function SaleElsewhere(s: Sale, shops: seq<Shop>, buyers: seq<Buyer>): seq<Sale> {
    if shops == [] then []
    else
      (if s.shopId == shops[0].id then SaleElsewhereAt(s, shops[0], buyers) else [])
      + SaleElsewhere(s, shops[1..], buyers)
  }

  /** Reference, sale by sale: each sale once per (shop, buyer) it names whose
      cities differ, in sale, then shop, then buyer order. */
  function SalesElsewhere(sales: seq<Sale>, shops: seq<Shop>, buyers: seq<Buyer>): seq<Sale> {
    if sales == [] then [] else SaleElsewhere(sales[0], shops, buyers) + SalesElsewhere(sales[1..], shops, buyers)
  }

  lemma {:induction false} SaleElsewhereAtJoin(s: Sale, sh: Shop, buyers: seq<Buyer>)
    ensures Select(Where(Partners((s, sh), buyers, (p: (Sale, Shop), b: Buyer) => p.0.buyerId == b.id),
                         (t: ((Sale, Shop), Buyer)) => t.0.1.city != t.1.city),
                   (t: ((Sale, Shop), Buyer)) => t.0.0)
      == SaleElsewhereAt(s, sh, buyers)
  {
    var onBuyer := (p: (Sale, Shop), b: Buyer) => p.0.buyerId == b.id;
    var apart := (t: ((Sale, Shop), Buyer)) => t.0.1.city != t.1.city;
    var f := (t: ((Sale, Shop), Buyer)) => t.0.0;
    if buyers != [] {
      var head: seq<((Sale, Shop), Buyer)> := if onBuyer((s, sh), buyers[0]) then [((s, sh), buyers[0])] else [];
      var rest := Partners((s, sh), buyers[1..], onBuyer);
      assert Partners((s, sh), buyers, onBuyer) == head + rest;
      WhereAppend(head, rest, apart);
      SelectAppend(Where(head, apart), Where(rest, apart), f);
      SaleElsewhereAtJoin(s, sh, buyers[1..]);
    }
  }

  lemma {:induction false} SaleElsewhereJoin(s: Sale, shops: seq<Shop>, buyers: seq<Buyer>)
    ensures Select(Where(Join(Partners(s, shops, (s: Sale, sh: Shop) => s.shopId == sh.id), buyers,
                              (p: (Sale, Shop), b: Buyer) => p.0.buyerId == b.id),
                         (t: ((Sale, Shop), Buyer)) => t.0.1.city != t.1.city),
                   (t: ((Sale, Shop), Buyer)) => t.0.0)
      == SaleElsewhere(s, shops, buyers)
  {
    var onShop := (s: Sale, sh: Shop) => s.shopId == sh.id;
    var onBuyer := (p: (Sale, Shop), b: Buyer) => p.0.buyerId == b.id;
    var apart := (t: ((Sale, Shop), Buyer)) => t.0.1.city != t.1.city;
    var f := (t: ((Sale, Shop), Buyer)) => t.0.0;
    if shops != [] {
      var head: seq<(Sale, Shop)> := if onShop(s, shops[0]) then [(s, shops[0])] else [];
      var rest := Partners(s, shops[1..], onShop);
      assert Partners(s, shops, onShop) == head + rest;
      JoinAppend(head, rest, buyers, onBuyer);
      WhereAppend(Join(head, buyers, onBuyer), Join(rest, buyers, onBuyer), apart);
      SelectAppend(Where(Join(head, buyers, onBuyer), apart), Where(Join(rest, buyers, onBuyer), apart), f);
      if onShop(s, shops[0]) {
        SaleElsewhereAtJoin(s, shops[0], buyers);
      }
      SaleElsewhereJoin(s, shops[1..], buyers);
    }
  }

  /** The query expression of DataAccessLayer.cs:92-96 computes `SalesElsewhere`. */
  lemma {:induction false} OtherCitySalesJoin(sales: seq<Sale>, shops: seq<Shop>, buyers: seq<Buyer>)
    ensures Select(Where(Join(Join(sales, shops, (s: Sale, sh: Shop) => s.shopId == sh.id), buyers,
                              (p: (Sale, Shop), b: Buyer) => p.0.buyerId == b.id),
                         (t: ((Sale, Shop), Buyer)) => t.0.1.city != t.1.city),
                   (t: ((Sale, Shop), Buyer)) => t.0.0)
      == SalesElsewhere(sales, shops, buyers)
  {
    var onShop := (s: Sale, sh: Shop) => s.shopId == sh.id;
    var onBuyer := (p: (Sale, Shop), b: Buyer) => p.0.buyerId == b.id;
    var apart := (t: ((Sale, Shop), Buyer)) => t.0.1.city != t.1.city;
    var f := (t: ((Sale, Shop), Buyer)) => t.0.0;
    if sales != [] {
      var first := Partners(sales[0], shops, onShop);
      var rest := Join(sales[1..], shops, onShop);
      assert Join(sales, shops, onShop) == first + rest;
      JoinAppend(first, rest, buyers, onBuyer);
      WhereAppend(Join(first, buyers, onBuyer), Join(rest, buyers, onBuyer), apart);
      SelectAppend(Where(Join(first, buyers, onBuyer), apart), Where(Join(rest, buyers, onBuyer), apart), f);
      SaleElsewhereJoin(sales[0], shops, buyers);
      OtherCitySalesJoin(sales[1..], shops, buyers);
    }
  }

  /** Sale joined with Shop on ShopId and with Buyer on BuyerId, kept when
      the two cities differ: one copy of the sale per such match, in join
      order. */
  function OtherCitySales(sales: seq<Sale>, shops: seq<Shop>, buyers: seq<Buyer>): (r: seq<Sale>)
    ensures r == SalesElsewhere(sales, shops, buyers)
  {
    var atShop := Join(sales, shops, (s: Sale, sh: Shop) => s.shopId == sh.id);
    var withBuyer := Join(atShop, buyers, (p: (Sale, Shop), b: Buyer) => p.0.buyerId == b.id);
    var elsewhere := Where(withBuyer, (t: ((Sale, Shop), Buyer)) => t.0.1.city != t.1.city);
    OtherCitySalesJoin(sales, shops, buyers);
    Select(elsewhere, (t: ((Sale, Shop), Buyer)) => t.0.0)
  }

  /** A sale is in the result exactly when some shop and some buyer it names
      are in different cities; a sale without a join partner is dropped. */
  lemma OtherCitySalesMembers(sales: seq<Sale>, shops: seq<Shop>, buyers: seq<Buyer>, s: Sale)
    ensures s in OtherCitySales(sales, shops, buyers) <==>
      s in sales && exists sh, b | sh in shops && b in buyers ::
        s.shopId == sh.id && s.buyerId == b.id && sh.city != b.city
  {
    if s in OtherCitySales(sales, shops, buyers) {
      OtherCitySalesSound(sales, shops, buyers, s);
    }
    if sh, b :| sh in shops && b in buyers && s.shopId == sh.id && s.buyerId == b.id && sh.city != b.city {
      if s in sales {
        OtherCitySalesComplete(sales, shops, buyers, s, sh, b);
      }
    }
  }

  lemma OtherCitySalesSound(sales: seq<Sale>, shops: seq<Shop>, buyers: seq<Buyer>, s: Sale)
    requires s in OtherCitySales(sales, shops, buyers)
    ensures s in sales && exists sh, b | sh in shops && b in buyers ::
      s.shopId == sh.id && s.buyerId == b.id && sh.city != b.city
  {
    var onShop := (s: Sale, sh: Shop) => s.shopId == sh.id;
    var onBuyer := (p: (Sale, Shop), b: Buyer) => p.0.buyerId == b.id;
    var apart := (t: ((Sale, Shop), Buyer)) => t.0.1.city != t.1.city;
    var atShop := Join(sales, shops, onShop);
    var withBuyer := Join(atShop, buyers, onBuyer);
    var elsewhere := Where(withBuyer, apart);
    var r := OtherCitySales(sales, shops, buyers);
    var i :| 0 <= i < |r| && r[i] == s;
    var t := elsewhere[i];
    assert s == t.0.0;
    WhereMember(withBuyer, apart, t);
    JoinMember(atShop, buyers, onBuyer, t.0, t.1);
    JoinMember(sales, shops, onShop, t.0.0, t.0.1);
  }

  lemma OtherCitySalesComplete(sales: seq<Sale>, shops: seq<Shop>, buyers: seq<Buyer>, s: Sale, sh: Shop, b: Buyer)
    requires s in sales && sh in shops && b in buyers
    requires s.shopId == sh.id && s.buyerId == b.id && sh.city != b.city
    ensures s in OtherCitySales(sales, shops, buyers)
  {
    var onShop := (s: Sale, sh: Shop) => s.shopId == sh.id;
    var onBuyer := (p: (Sale, Shop), b: Buyer) => p.0.buyerId == b.id;
    var apart := (t: ((Sale, Shop), Buyer)) => t.0.1.city != t.1.city;
    var atShop := Join(sales, shops, onShop);
    var withBuyer := Join(atShop, buyers, onBuyer);
    var elsewhere := Where(withBuyer, apart);
    var r := OtherCitySales(sales, shops, buyers);
    JoinMember(sales, shops, onShop, s, sh);
    JoinMember(atShop, buyers, onBuyer, (s, sh), b);
    WhereMember(withBuyer, apart, ((s, sh), b));
    var k :| 0 <= k < |elsewhere| && elsewhere[k] == ((s, sh), b);
    assert r[k] == s;
  }

  /** DataAccessLayer.cs:92-96: reads the sale, shop and buyer tables, in that order. */
  function GetOtherCitySales(tables: Tables): (r: Result<seq<Sale>>)
    ensures SaleKind !in tables ==> r == Err(TableNotFound(SaleKind))
    ensures SaleKind in tables && ShopKind !in tables ==> r == Err(TableNotFound(ShopKind))
    ensures SaleKind in tables && ShopKind in tables && BuyerKind !in tables ==> r == Err(TableNotFound(BuyerKind))
    ensures SaleKind in tables && ShopKind in tables && BuyerKind in tables ==>
      r == Ok(OtherCitySales(Sales(tables[SaleKind]), Shops(tables[ShopKind]), Buyers(tables[BuyerKind])))
  {
    match SaleTable(tables)
    case Err(e) => Err(e)
    case Ok(sales) =>
      match ShopTable(tables)
      case Err(e) => Err(e)
      case Ok(shops) =>
        match BuyerTable(tables)
        case Err(e) => Err(e)
        case Ok(buyers) => Ok(OtherCitySales(sales, shops, buyers))
  }

  // ---------------------------------------------------------------------------
  // Total sales value

  /** The value of one sale against every good with its GoodId. */
  function SaleValue(s: Sale, goods: seq<Good>): int {
    if goods == [] then 0
    else (if s.goodId == goods[0].id then s.goodCount * goods[0].price else 0) + SaleValue(s, goods[1..])
  }

  /** Reference: the sum of GoodCount * Price over all (sale, good) pairs
      with sale.GoodId == good.Id, as a double sum over the two tables. */
  function PairwiseValue(sales: seq<Sale>, goods: seq<Good>): int {
    if sales == [] then 0 else SaleValue(sales[0], goods) + PairwiseValue(sales[1..], goods)
  }

  lemma {:induction false} PartnersValue(s: Sale, goods: seq<Good>)
    ensures Sum(Select(Partners(s, goods, (s: Sale, g: Good) => s.goodId == g.id),
                       (p: (Sale, Good)) => p.0.goodCount * p.1.price)) == SaleValue(s, goods)
  {
    var on := (s: Sale, g: Good) => s.goodId == g.id;
    var f := (p: (Sale, Good)) => p.0.goodCount * p.1.price;
    if goods != [] {
      var head: seq<(Sale, Good)> := if on(s, goods[0]) then [(s, goods[0])] else [];
      assert Partners(s, goods, on) == head + Partners(s, goods[1..], on);
      SelectAppend(head, Partners(s, goods[1..], on), f);
      SumAppend(Select(head, f), Select(Partners(s, goods[1..], on), f));
      PartnersValue(s, goods[1..]);
    }
  }

  /** The query expression of DataAccessLayer.cs:103-105 equals the double-sum reference. */
  lemma {:induction false} JoinValueIsPairwise(sales: seq<Sale>, goods: seq<Good>)
    ensures Sum(Select(Join(sales, goods, (s: Sale, g: Good) => s.goodId == g.id),
                       (p: (Sale, Good)) => p.0.goodCount * p.1.price)) == PairwiseValue(sales, goods)
  {
    var on := (s: Sale, g: Good) => s.goodId == g.id;
    var f := (p: (Sale, Good)) => p.0.goodCount * p.1.price;
    if sales != [] {
      assert Join(sales, goods, on) == Partners(sales[0], goods, on) + Join(sales[1..], goods, on);
      SelectAppend(Partners(sales[0], goods, on), Join(sales[1..], goods, on), f);
      SumAppend(Select(Partners(sales[0], goods, on), f), Select(Join(sales[1..], goods, on), f));
      PartnersValue(sales[0], goods);
      JoinValueIsPairwise(sales[1..], goods);
    }
  }

  /** `(from sale join good on GoodId select GoodCount * Price).Sum()`: the
      double sum of GoodCount * Price over matching (sale, good) pairs. */
  function TotalSalesValue(sales: seq<Sale>, goods: seq<Good>): (r: int)
    ensures r == PairwiseValue(sales, goods)
  {
    var sold := Join(sales, goods, (s: Sale, g: Good) => s.goodId == g.id);
    JoinValueIsPairwise(sales, goods);
    Sum(Select(sold, (p: (Sale, Good)) => p.0.goodCount * p.1.price))
  }

  /** When the join is empty the total is 0; when every sale has a positive
      count and every good a non-negative price, it is never negative. */
  lemma TotalSalesValueBounds(sales: seq<Sale>, goods: seq<Good>)
    ensures Join(sales, goods, (s: Sale, g: Good) => s.goodId == g.id) == [] ==> TotalSalesValue(sales, goods) == 0
    ensures (forall s | s in sales :: s.goodCount > 0) && (forall g | g in goods :: g.price >= 0) ==>
      TotalSalesValue(sales, goods) >= 0
  {
    var sold := Join(sales, goods, (s: Sale, g: Good) => s.goodId == g.id);
    var values := Select(sold, (p: (Sale, Good)) => p.0.goodCount * p.1.price);
    if (forall s | s in sales :: s.goodCount > 0) && (forall g | g in goods :: g.price >= 0) {
      forall i | 0 <= i < |values| ensures values[i] >= 0 {
        assert sold[i].0 in sales && sold[i].1 in goods;
      }
    }
  }

  /** DataAccessLayer.cs:103-105: reads the sale and good tables, in that order. */
  function GetTotalSalesValue(tables: Tables): (r: Result<int>)
    ensures SaleKind !in tables ==> r == Err(TableNotFound(SaleKind))
    ensures SaleKind in tables && GoodKind !in tables ==> r == Err(TableNotFound(GoodKind))
    ensures SaleKind in tables && GoodKind in tables ==>
      r == Ok(TotalSalesValue(Sales(tables[SaleKind]), Goods(tables[GoodKind])))
  {
    match SaleTable(tables)
    case Err(e) => Err(e)
    case Ok(sales) =>
      match GoodTable(tables)
      case Err(e) => Err(e)
      case Ok(goods) => Ok(TotalSalesValue(sales, goods))
  }

  // ---------------------------------------------------------------------------
  // Id existence checks

  /** DataAccessLayer.cs:113-123: false when there is no shop table. */
  function ShopIdIsExist(tables: Tables, shopId: int): (r: bool)
    ensures r <==> (ShopKind in tables &&
      exists i | 0 <= i < |Shops(tables[ShopKind])| :: Shops(tables[ShopKind])[i].id == shopId)
  {
    match ShopTable(tables)
    case Err(_) => false
    case Ok(shops) => Any(shops, (s: Shop) => s.id == shopId)
  }

  /** DataAccessLayer.cs:131-141: false when there is no buyer table. */
  function BuyerIdIsExist(tables: Tables, buyerId: int): (r: bool)
    ensures r <==> (BuyerKind in tables &&
      exists i | 0 <= i < |Buyers(tables[BuyerKind])| :: Buyers(tables[BuyerKind])[i].id == buyerId)
  {
    match BuyerTable(tables)
    case Err(_) => false
    case Ok(buyers) => Any(buyers, (b: Buyer) => b.id == buyerId)
  }

  /** DataAccessLayer.cs:149-159: false when there is no good table. */
  function GoodIdIsExist(tables: Tables, goodId: int): (r: bool)
    ensures r <==> (GoodKind in tables &&
      exists i | 0 <= i < |Goods(tables[GoodKind])| :: Goods(tables[GoodKind])[i].id == goodId)
  {
    match GoodTable(tables)
    case Err(_) => false
    case Ok(goods) => Any(goods, (g: Good) => g.id == goodId)
  }

  // ---------------------------------------------------------------------------
  // Table validators

  /** A buyer row is well-formed: City, Country, Name and Surname set, Id not negative. */
  predicate BuyerIsWellFormed(b: Buyer) {
    b.city.Some? && b.country.Some? && b.name.Some? && b.surname.Some? && b.id >= 0
  }

  /** A good row is well-formed: Name and Category set, Price, Id and ShopId not negative. */
  predicate GoodIsWellFormed(g: Good) {
    g.name.Some? && g.category.Some? && g.price >= 0 && g.id >= 0 && g.shopId >= 0
  }

  /** A shop row is well-formed: Name, City and Country set, Id not negative. */
  predicate ShopIsWellFormed(s: Shop) {
    s.name.Some? && s.city.Some? && s.country.Some? && s.id >= 0
  }

  /** A sale row is well-formed: Ids not negative, GoodCount positive. */
  predicate SaleIsWellFormed(s: Sale) {
    s.id >= 0 && s.goodId >= 0 && s.goodCount > 0 && s.buyerId >= 0 && s.shopId >= 0
  }

  /** DataAccessLayer.cs:166-167: true iff no buyer row is malformed; an
      absent table is not caught. */
  function BuyerTableIsCorrect(tables: Tables): (r: Result<bool>)
    ensures BuyerKind !in tables ==> r == Err(TableNotFound(BuyerKind))
    ensures BuyerKind in tables ==>
      r.Ok? && (r.value <==> forall b | b in Buyers(tables[BuyerKind]) :: BuyerIsWellFormed(b))
  {
    match BuyerTable(tables)
    case Err(e) => Err(e)
    case Ok(buyers) =>
      var malformed := (b: Buyer) =>
        b.city.None? || b.country.None? || b.name.None? || b.surname.None? || b.id < 0;
      NoneSatisfies(buyers, malformed);
      Ok(!Any(buyers, malformed))
  }

  /** DataAccessLayer.cs:174-176: true iff no good row is malformed; an
      absent table is not caught. */
  function GoodTableIsCorrect(tables: Tables): (r: Result<bool>)
    ensures GoodKind !in tables ==> r == Err(TableNotFound(GoodKind))
    ensures GoodKind in tables ==>
      r.Ok? && (r.value <==> forall g | g in Goods(tables[GoodKind]) :: GoodIsWellFormed(g))
  {
    match GoodTable(tables)
    case Err(e) => Err(e)
    case Ok(goods) =>
      var malformed := (g: Good) =>
        g.name.None? || g.category.None? || g.price < 0 || g.id < 0 || g.shopId < 0;
      NoneSatisfies(goods, malformed);
      Ok(!Any(goods, malformed))
  }

  /** DataAccessLayer.cs:183-184: true iff no shop row is malformed; an
      absent table is not caught. */
  function ShopTableIsCorrect(tables: Tables): (r: Result<bool>)
    ensures ShopKind !in tables ==> r == Err(TableNotFound(ShopKind))
    ensures ShopKind in tables ==>
      r.Ok? && (r.value <==> forall s | s in Shops(tables[ShopKind]) :: ShopIsWellFormed(s))
  {
    match ShopTable(tables)
    case Err(e) => Err(e)
    case Ok(shops) =>
      var malformed := (s: Shop) =>
        s.name.None? || s.city.None? || s.country.None? || s.id < 0;
      NoneSatisfies(shops, malformed);
      Ok(!Any(shops, malformed))
  }

  /** DataAccessLayer.cs:191-192: true iff no sale row is malformed; an
      absent table is not caught. */
  function SaleTableIsCorrect(tables: Tables): (r: Result<bool>)
    ensures SaleKind !in tables ==> r == Err(TableNotFound(SaleKind))
    ensures SaleKind in tables ==>
      r.Ok? && (r.value <==> forall s | s in Sales(tables[SaleKind]) :: SaleIsWellFormed(s))
  {
    match SaleTable(tables)
    case Err(e) => Err(e)
    case Ok(sales) =>
      var malformed := (s: Sale) =>
        s.id < 0 || s.goodId < 0 || s.goodCount <= 0 || s.buyerId < 0 || s.shopId < 0;
      NoneSatisfies(sales, malformed);
      Ok(!Any(sales, malformed))
  }

  /** The total sales value of validated sale and good tables is never negative. */
  lemma ValidatedTotalIsNonNegative(tables: Tables)
    requires SaleTableIsCorrect(tables) == Ok(true) && GoodTableIsCorrect(tables) == Ok(true)
    ensures GetTotalSalesValue(tables).Ok? && GetTotalSalesValue(tables).value >= 0
  {
    TotalSalesValueBounds(Sales(tables[SaleKind]), Goods(tables[GoodKind]));
  }

  // ---------------------------------------------------------------------------
  // Worked scenarios

  /** One shop, buyer, good and sale, all in Paris: a sale of two goods at 100. */
  const parisShop := Shop(1, Some("S1"), Some("Paris"), Some("FR"))
  const parisBuyer := Buyer(1, Some("Bob"), Some("X"), Some("Paris"), Some("FR"))
  const parisGood := Good(1, Some("G1"), 1, Some("cat"), 100)
  const parisSale := Sale(1, 1, 1, 1, 2)

  function ParisTables(): (t: Tables)
    ensures t.Keys == {ShopKind, BuyerKind, GoodKind, SaleKind}
    ensures Shops(t[ShopKind]) == [parisShop] && Buyers(t[BuyerKind]) == [parisBuyer]
    ensures Goods(t[GoodKind]) == [parisGood] && Sales(t[SaleKind]) == [parisSale]
  {
    map[ShopKind := [ShopRow(parisShop)], BuyerKind := [BuyerRow(parisBuyer)],
        GoodKind := [GoodRow(parisGood)], SaleKind := [SaleRow(parisSale)]]
  }

  lemma ParisTotal()
    ensures GetTotalSalesValue(ParisTables()) == Ok(200)
  {
  }

  lemma ParisCitySales()
    ensures CitySales([parisSale], [parisGood], [parisShop]) == [(Some("Paris"), 200)]
  {
    var on := (s: Sale, g: Good) => s.goodId == g.id;
    assert Partners(parisSale, [parisGood], on) == [(parisSale, parisGood)];
    assert Join([parisSale], [parisGood], on) == [(parisSale, parisGood)];
    var at := (p: (Sale, Good), sh: Shop) => p.0.shopId == sh.id;
    assert Partners((parisSale, parisGood), [parisShop], at) == [((parisSale, parisGood), parisShop)];
    assert Join([(parisSale, parisGood)], [parisShop], at) == [((parisSale, parisGood), parisShop)];
  }

  lemma ParisMinimumCity()
    ensures GetMinimumSalesCity(ParisTables()) == Ok(Some("Paris"))
  {
  }

  lemma ParisNoOtherCitySales()
    ensures GetOtherCitySales(ParisTables()) == Ok([])
  {
    var r := OtherCitySales([parisSale], [parisShop], [parisBuyer]);
    if r != [] {
      OtherCitySalesMembers([parisSale], [parisShop], [parisBuyer], r[0]);
    }
  }

  lemma ParisShopIds()
    ensures ShopIdIsExist(ParisTables(), 1) && !ShopIdIsExist(ParisTables(), 2)
  {
  }

  /** "Alexandra" outranks "Al" by length, wherever it stands. */
  lemma LongerNameWins(al: Buyer, alexandra: Buyer)
    requires al.name == Some("Al") && alexandra.name == Some("Alexandra")
    ensures LongestNameBuyerId([al, alexandra]) == Some(alexandra.id)
    ensures LongestNameBuyerId([alexandra, al]) == Some(alexandra.id)
  {
  }
}
