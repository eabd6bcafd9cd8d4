# DataBaseLib in Dafny

This project models the core of a small in-memory database of a retail chain.
The database keeps four kinds of table: shops, buyers, goods and sales. It has
two parts:

- **The table store** (`DataBase`). It holds at most one table per entity kind.
  Tables are created explicitly, rows are appended at the end, and a whole
  table can be written to a file or loaded from one. The model is the class
  `Store.DataBase`. Its field `tables: map<Kind, seq<Entity>>` is updated in
  place by `CreateTable`, `InsertInto` and `Deserialize`, as the source's
  dictionary is.
- **The query layer** (`DataAccessLayer`). It has seven analytic queries, three
  Id-existence checks and four table validators. Each one is a pure function
  over the store's tables in module `DataAccessLayer`. They are built from
  LINQ operators, which module `Linq` models over sequences: `Any`, `Where`,
  `Select`, `Join`, `Sum`, `GroupBy`, and the first-occurrence `MaxBy`/`MinBy`.

Failures are values, not exceptions.
- The store's `DataBaseException` becomes a `Result` error. `DbError` says
  which cause it was: the table already exists, the table is not found, the
  file could not be accessed, or the file decoded to null.
- A query reads its tables through `GetTable`, which fails when a table is
  absent, and most queries do not catch that failure. Such a query returns
  `Err(TableNotFound(kind))` for the first absent table it reads, in the order
  the source reads them.
- The three existence checks catch the failure and answer `false`.
- Two catches in the source map other exceptions to default values, and the
  model does the same:
  - a null buyer name gives an empty result for the longest-name query;
  - an empty shop table gives 0 for the fewest-shops query.

Nullable strings are `Option<string>`. That is why the validators can look for
nulls.

The longest-name buyer is the first buyer with the greatest key
`(Name.Length, Name, Id)`, where `Name.Length` counts UTF-16 code units. So when two buyers share a name, the one with the
**larger** Id is chosen (`TieGoesToLargerId`).

## Model

| member | source | states |
|---|---|---|
| Store.Lookup | DataBaseLib/DataBase.cs:59-64 | a table is found exactly when its kind is present, and it is the stored sequence; otherwise the error is not-found for that kind |
| Store.DataBase.constructor | DataBaseLib/DataBase.cs:17 | a new store has no tables |
| Store.DataBase.CreateTable | DataBaseLib/DataBase.cs:24-32 | an existing kind fails with already-exists and changes nothing; an absent kind gets an empty table and every other kind is unchanged; well-kindedness is kept |
| Store.DataBase.InsertInto | DataBaseLib/DataBase.cs:40-49 | an absent table fails with not-found and changes nothing; otherwise the row's table becomes the old one plus the row at the end, and other tables are untouched |
| Store.DataBase.GetTable | DataBaseLib/DataBase.cs:57-65 | fails exactly when the kind is absent; otherwise returns the stored sequence, all of that kind; the store cannot change (no modifies clause) |
| Store.DataBase.Serialize | DataBaseLib/DataBase.cs:73-89 | an absent table fails with not-found before any write; a failed write fails with file-access; otherwise every row is written, in order; the store never changes |
| Store.DataBase.Deserialize | DataBaseLib/DataBase.cs:97-123 | a failed read or a null document fails before any update; decoded rows replace the table or create it, in decoded order, with other tables untouched |
| Linq.Any | DataBaseLib/DataAccessLayer.cs:119 | true exactly when some element satisfies the predicate |
| Linq.NoneSatisfies | DataBaseLib/DataAccessLayer.cs:166-167 | `Any` is false exactly when no element of the sequence satisfies the predicate |
| Linq.Where | DataBaseLib/DataAccessLayer.cs:64 | every kept element occurs in the input and satisfies the predicate, every element that satisfies it is kept, and the result is no longer than the input |
| Linq.WhereMember | DataBaseLib/DataAccessLayer.cs:64 | an element is in the filtered sequence iff it occurs in the input and satisfies the predicate |
| Linq.WhereAppend | DataBaseLib/DataAccessLayer.cs:64 | filtering a concatenation is the concatenation of the filtered parts; with the one-element case this fixes the order and the number of copies kept |
| Linq.Select | DataBaseLib/DataAccessLayer.cs:25 | one image per element, in the input's order |
| Linq.Partners | DataBaseLib/DataAccessLayer.cs:93 | every pair has the given outer element and an inner element that occurs and matches it |
| Linq.PartnersAppend | DataBaseLib/DataAccessLayer.cs:93 | the partners in a concatenated inner sequence are the partners in each part, in order |
| Linq.Join | DataBaseLib/DataAccessLayer.cs:93-94 | every joined pair comes from the two inputs and matches |
| Linq.JoinAppend | DataBaseLib/DataAccessLayer.cs:93-94 | joining a concatenated outer sequence joins each part, in order, and one outer element contributes exactly its partners; with `PartnersAppend` this fixes the join's order (outer, then inner) and one pair per matching combination |
| Linq.JoinMember | DataBaseLib/DataAccessLayer.cs:93-94 | a pair is in the inner join iff both sides occur and match |
| Linq.Sum | DataBaseLib/DataAccessLayer.cs:105 | a sum of non-negative terms is not negative |
| Linq.SumAppend | DataBaseLib/DataAccessLayer.cs:105 | the sum of a concatenation is the sum of the sums |
| Linq.FirstMaxIndex | DataBaseLib/DataAccessLayer.cs:40 | `MaxBy` selects a greatest key, and the first such |
| Linq.FirstMinIndex | DataBaseLib/DataAccessLayer.cs:79 | `Min`/`MinBy` select a least key, and the first such |
| Linq.GroupBy | DataBaseLib/DataAccessLayer.cs:50 | one group per distinct key and no other, each holding exactly that key's elements in order; groups come in order of the key's first appearance |
| Linq.MinTotalKey | DataBaseLib/DataAccessLayer.cs:50 | `MinBy(g => g.Sum())?.Key` gives no key iff there are no pairs; otherwise a key that occurs, with a total no larger than any key's, and every key first seen earlier has a strictly larger total |
| Linq.MaxTotalKey | DataBaseLib/DataAccessLayer.cs:61 | `MaxBy(g => g.Sum())` gives no key iff there are no pairs; otherwise a key that occurs, with a total no smaller than any key's, and every key first seen earlier has a strictly smaller total |
| Linq.OrdinalLessIrreflexive | DataBaseLib/DataAccessLayer.cs:19 | no name precedes itself in the string order |
| Linq.OrdinalLessTransitive | DataBaseLib/DataAccessLayer.cs:19 | the string order is transitive |
| Linq.OrdinalLessTotal | DataBaseLib/DataAccessLayer.cs:19 | of two different names, one precedes the other |
| DataAccessLayer.Shops | DataBaseLib/DataBase.cs:57-64 | every shop of the typed view comes from a shop row of the table; on a shop table the view keeps every row, in order |
| DataAccessLayer.Buyers | DataBaseLib/DataBase.cs:57-64 | every buyer of the typed view comes from a buyer row of the table; on a buyer table the view keeps every row, in order |
| DataAccessLayer.Goods | DataBaseLib/DataBase.cs:57-64 | every good of the typed view comes from a good row of the table; on a good table the view keeps every row, in order |
| DataAccessLayer.Sales | DataBaseLib/DataBase.cs:57-64 | every sale of the typed view comes from a sale row of the table; on a sale table the view keeps every row, in order |
| DataAccessLayer.ShopTable | DataBaseLib/DataBase.cs:57-64 | `GetTable<Shop>()`: not-found when there is no shop table, otherwise the typed view of it |
| DataAccessLayer.BuyerTable | DataBaseLib/DataBase.cs:57-64 | `GetTable<Buyer>()`: not-found when there is no buyer table, otherwise the typed view of it |
| DataAccessLayer.GoodTable | DataBaseLib/DataBase.cs:57-64 | `GetTable<Good>()`: not-found when there is no good table, otherwise the typed view of it |
| DataAccessLayer.SaleTable | DataBaseLib/DataBase.cs:57-64 | `GetTable<Sale>()`: not-found when there is no sale table, otherwise the typed view of it |
| DataAccessLayer.Utf16LengthBounds | DataBaseLib/DataAccessLayer.cs:19 | `Name.Length` counts UTF-16 code units: one or two per character, exactly one per character when all lie in the Basic Multilingual Plane |
| DataAccessLayer.KeyLessAsymmetric | DataBaseLib/DataAccessLayer.cs:19 | the buyer key order is asymmetric |
| DataAccessLayer.KeyNotLessTransitive | DataBaseLib/DataAccessLayer.cs:19 | "not less" is transitive, so the buyer key order is a strict weak order |
| DataAccessLayer.LongestNameIndex | DataBaseLib/DataAccessLayer.cs:19 | the chosen buyer has no buyer with a greater key and comes first among those; its name has the greatest `Length`; among buyers with the same name its Id is the largest |
| DataAccessLayer.LongestNameBuyerId | DataBaseLib/DataAccessLayer.cs:19 | `MaxBy(...)?.Id` is none iff there are no buyers; otherwise the Id of a buyer whose key no buyer's key exceeds |
| DataAccessLayer.TieGoesToLargerId | DataBaseLib/DataAccessLayer.cs:19 | of two buyers with the same name, the larger Id is chosen in either order |
| DataAccessLayer.LongerNameWins | DataBaseLib/DataAccessLayer.cs:19 | "Alexandra" is chosen over "Al" in either order |
| DataAccessLayer.PartnerGoods | DataBaseLib/DataAccessLayer.cs:22-24 | the goods one sale joins are the goods with its GoodId, in good order |
| DataAccessLayer.GoodsBoughtJoin | DataBaseLib/DataAccessLayer.cs:21-25 | the query expression computes the sale-by-sale reference `GoodsSoldTo` |
| DataAccessLayer.GoodsBoughtBy | DataBaseLib/DataAccessLayer.cs:21-25 | equals `GoodsSoldTo`: for each sale by the buyer, in sale order, every good with the sale's GoodId, in good order, repeats included; no goods without a buyer Id |
| DataAccessLayer.GoodsBoughtByMembers | DataBaseLib/DataAccessLayer.cs:21-25 | a good is returned iff it is in the good table and some sale by the buyer names its Id |
| DataAccessLayer.GetAllGoodsOfLongestNameBuyer | DataBaseLib/DataAccessLayer.cs:14-31 | an absent buyer table fails; a null buyer name gives no goods and reads no other table; with every name set, an absent sale table fails, then an absent good table fails, and otherwise the result is `GoodsSoldTo` for the chosen buyer's Id; every failure is not-found for an absent table |
| DataAccessLayer.LongestNameBuyerGoods | DataBaseLib/DataAccessLayer.cs:18-25 | with every name set, the result is `GoodsSoldTo` for the buyer with the greatest (length, name, Id) key, so a good is in it iff a sale to that buyer names it |
| DataAccessLayer.MostExpensiveCategory | DataBaseLib/DataAccessLayer.cs:39-40 | none for no goods; otherwise the category of a good of greatest price, the first such |
| DataAccessLayer.GetMostExpensiveGoodCategory | DataBaseLib/DataAccessLayer.cs:39-40 | an absent good table fails with not-found; otherwise the category above |
| DataAccessLayer.ShopCityValuesJoin | DataBaseLib/DataAccessLayer.cs:49 | one (sale, good) pair joined with the shops gives one (city, Price * GoodCount) pair per shop with the sale's ShopId, in shop order |
| DataAccessLayer.SaleCityValuesJoin | DataBaseLib/DataAccessLayer.cs:48-49 | one sale's pairs are those of every good with its GoodId, in good order |
| DataAccessLayer.CitySalesJoin | DataBaseLib/DataAccessLayer.cs:47-49 | the two joins and the projection compute the sale-by-sale reference `CityValues` |
| DataAccessLayer.CitySales | DataBaseLib/DataAccessLayer.cs:47-49 | equals `CityValues`: one (shop city, Price * GoodCount) pair per matching (sale, good, shop), in sale, then good, then shop order |
| DataAccessLayer.CitySalesMembers | DataBaseLib/DataAccessLayer.cs:47-49 | each (city, value) pair comes from a sale, its good and its shop, and every such triple has its pair in the result |
| DataAccessLayer.CitySalesSound | DataBaseLib/DataAccessLayer.cs:47-49 | each (city, value) pair comes from a joined sale, good and shop |
| DataAccessLayer.CitySalesComplete | DataBaseLib/DataAccessLayer.cs:47-49 | every joined sale, good and shop yields its (city, Price * GoodCount) pair |
| DataAccessLayer.MinimumSalesCity | DataBaseLib/DataAccessLayer.cs:47-50 | no city when nothing joins; when something joins, the key of the first least-total group: a city key that occurs (null when that group's City is null), has the least total sales value, and every city seen earlier has a strictly larger total |
| DataAccessLayer.GetMinimumSalesCity | DataBaseLib/DataAccessLayer.cs:47-50 | reads the sale, good and shop tables, in that order, failing at the first absent one; otherwise the city above, so a non-empty join always yields the least-total city key |
| DataAccessLayer.GoodCounts | DataBaseLib/DataAccessLayer.cs:61 | one (GoodId, GoodCount) pair per sale, in sale order |
| DataAccessLayer.MostSoldGood | DataBaseLib/DataAccessLayer.cs:61 | the key `MaxBy` picks is a sold GoodId whose total count no sold good's exceeds, and every good first sold earlier has a smaller total |
| DataAccessLayer.MostPopularGood | DataBaseLib/DataAccessLayer.cs:60-61 | no good iff there are no sales; otherwise a sold GoodId with the greatest total count, and every good first sold earlier has a smaller total |
| DataAccessLayer.PartnerBuyers | DataBaseLib/DataAccessLayer.cs:66 | the buyers one sale joins are the buyers with its BuyerId, in buyer order |
| DataAccessLayer.BuyersOfGoodJoin | DataBaseLib/DataAccessLayer.cs:64-67 | the query expression computes the sale-by-sale reference `BuyersOfSales` |
| DataAccessLayer.BuyersOfGood | DataBaseLib/DataAccessLayer.cs:64-67 | equals `BuyersOfSales`: for each sale of the good, in sale order, every buyer with the sale's BuyerId, in buyer order, repeats included |
| DataAccessLayer.BuyersOfGoodMembers | DataBaseLib/DataAccessLayer.cs:62-67 | a buyer is returned iff it is in the buyer table and some sale of the good names its Id |
| DataAccessLayer.GetMostPopularGoodBuyers | DataBaseLib/DataAccessLayer.cs:58-68 | an absent sale table fails; no sales gives no buyers without reading the buyer table; with sales and no buyer table it fails; otherwise the result is `BuyersOfGood` for the most popular good, all from the buyer table |
| DataAccessLayer.CountryPairs | DataBaseLib/DataAccessLayer.cs:79 | one (Country, 1) pair per shop, in shop order |
| DataAccessLayer.CountryGroupSize | DataBaseLib/DataAccessLayer.cs:79 | a country's group has one element per shop in that country |
| DataAccessLayer.SmallestCountryGroup | DataBaseLib/DataAccessLayer.cs:79 | the group where `Min` stops holds the shop count of a country that occurs, no larger than any country's |
| DataAccessLayer.FewestShopsInCountry | DataBaseLib/DataAccessLayer.cs:79-82 | 0 for no shops; otherwise the shop count of some country, no larger than any country's, and at least 1 |
| DataAccessLayer.GetMinimumNumberOfShopsInCountry | DataBaseLib/DataAccessLayer.cs:75-85 | an absent shop table fails, not caught; otherwise the count above |
| DataAccessLayer.SaleElsewhereAtJoin | DataBaseLib/DataAccessLayer.cs:94-96 | one (sale, shop) pair joined with the buyers and filtered keeps the sale once per buyer with its BuyerId in another city, in buyer order |
| DataAccessLayer.SaleElsewhereJoin | DataBaseLib/DataAccessLayer.cs:93-96 | one sale's copies are those of every shop with its ShopId, in shop order |
| DataAccessLayer.OtherCitySalesJoin | DataBaseLib/DataAccessLayer.cs:92-96 | the joins, the filter and the projection compute the sale-by-sale reference `SalesElsewhere` |
| DataAccessLayer.OtherCitySales | DataBaseLib/DataAccessLayer.cs:92-96 | equals `SalesElsewhere`: each sale once per (shop, buyer) it names whose cities differ, in sale, then shop, then buyer order |
| DataAccessLayer.OtherCitySalesMembers | DataBaseLib/DataAccessLayer.cs:92-96 | a sale is returned iff it is in the sale table and joins a shop and a buyer in different cities; sales without a partner are dropped |
| DataAccessLayer.OtherCitySalesSound | DataBaseLib/DataAccessLayer.cs:92-96 | every returned sale joins a shop and a buyer in different cities |
| DataAccessLayer.OtherCitySalesComplete | DataBaseLib/DataAccessLayer.cs:92-96 | every sale that joins a shop and a buyer in different cities is returned |
| DataAccessLayer.GetOtherCitySales | DataBaseLib/DataAccessLayer.cs:92-96 | reads the sale, shop and buyer tables, in that order, failing at the first absent one; otherwise the sales above |
| DataAccessLayer.PartnersValue | DataBaseLib/DataAccessLayer.cs:103-105 | one sale's joined value is its count times the price of every good with its GoodId |
| DataAccessLayer.JoinValueIsPairwise | DataBaseLib/DataAccessLayer.cs:103-105 | the join-based sum equals the double sum of GoodCount * Price over matching (sale, good) pairs |
| DataAccessLayer.TotalSalesValue | DataBaseLib/DataAccessLayer.cs:103-105 | equals that double sum |
| DataAccessLayer.TotalSalesValueBounds | DataBaseLib/DataAccessLayer.cs:103-105 | an empty join totals 0; positive counts and non-negative prices give a non-negative total |
| DataAccessLayer.GetTotalSalesValue | DataBaseLib/DataAccessLayer.cs:103-105 | reads the sale then the good table, failing at the first absent one; otherwise the total above |
| DataAccessLayer.ValidatedTotalIsNonNegative | DataBaseLib/DataAccessLayer.cs:174-176 | when the sale and good validators both answer true, the total sales value is found and not negative |
| DataAccessLayer.ShopIdIsExist | DataBaseLib/DataAccessLayer.cs:113-123 | true iff the shop table is present and some shop has the Id |
| DataAccessLayer.BuyerIdIsExist | DataBaseLib/DataAccessLayer.cs:131-141 | true iff the buyer table is present and some buyer has the Id |
| DataAccessLayer.GoodIdIsExist | DataBaseLib/DataAccessLayer.cs:149-159 | true iff the good table is present and some good has the Id |
| DataAccessLayer.BuyerTableIsCorrect | DataBaseLib/DataAccessLayer.cs:166-167 | an absent table fails; otherwise true iff every buyer has City, Country, Name and Surname set and a non-negative Id |
| DataAccessLayer.GoodTableIsCorrect | DataBaseLib/DataAccessLayer.cs:174-176 | an absent table fails; otherwise true iff every good has Name and Category set and non-negative Price, Id and ShopId |
| DataAccessLayer.ShopTableIsCorrect | DataBaseLib/DataAccessLayer.cs:183-184 | an absent table fails; otherwise true iff every shop has Name, City and Country set and a non-negative Id |
| DataAccessLayer.SaleTableIsCorrect | DataBaseLib/DataAccessLayer.cs:191-192 | an absent table fails; otherwise true iff every sale has non-negative Ids and a positive GoodCount |
| DataAccessLayer.ParisCitySales | DataBaseLib/DataAccessLayer.cs:47-49 | one Paris sale of two goods at 100 joins to the single pair (Paris, 200) |
| DataAccessLayer.ParisTotal | DataBaseLib/DataAccessLayer.cs:103-105 | in the Paris store the total sales value is 200 |
| DataAccessLayer.ParisMinimumCity | DataBaseLib/DataAccessLayer.cs:47-50 | in the Paris store the city with the least sales is Paris |
| DataAccessLayer.ParisNoOtherCitySales | DataBaseLib/DataAccessLayer.cs:92-96 | in the Paris store no sale is made outside the buyer's city |
| DataAccessLayer.ParisShopIds | DataBaseLib/DataAccessLayer.cs:113-123 | in the Paris store shop 1 exists and shop 2 does not |

## Left out

- JSON encoding and file streams in `Serialize`/`Deserialize` (DataBaseLib/DataBase.cs:82-83, 102-105) are not visible here.
  - `Serialize` receives whether the write succeeded and returns the rows it writes.
  - `Deserialize` receives the decode outcome: unreadable, null, or rows.
  - A write-then-read round trip holds only for a codec that gives back what it wrote. `Store.StoreUsage` shows the store's half of it.
- Store.DataBase.Deserialize: requires the decoded rows to be of the table's kind. In the source the typed decoder gives this.
- Store.DataBase.InsertInto: takes the new row as a value. The source calls a row factory only after the table check; any effect of that factory is not modelled.
- Rows are tagged by kind, not by run-time type. The typed views (`Shops`, `Buyers`, `Goods`, `Sales`) keep the rows of their kind, which on a store that keeps `Valid()` is every row.
- String order: the default string comparer in the buyer key (DataBaseLib/DataAccessLayer.cs:19) is culture-sensitive. The model uses ordinal order on Unicode scalar values. `Name.Length` itself is modelled in UTF-16 code units (`Utf16Length`).
- Null rows: a JSON array can decode to a table holding null elements (DataBaseLib/DataBase.cs:103). The model's rows are never null. In the source a null row makes the validators and the queries that touch it throw `NullReferenceException`. After a file is loaded, the page catches that exception (SiteForDB/Pages/Index.cshtml.cs:266-268) and resets the store; the longest-name query's own catch (DataBaseLib/DataAccessLayer.cs:27-30) gives an empty result.
- DataAccessLayer.GetTotalSalesValue: does not model 64-bit `long` overflow of `GoodCount * Price` or of the sum; integers are unbounded.
- DataAccessLayer.GetMinimumSalesCity: does not model 64-bit overflow of `Price * GoodCount` or of the per-city sums.
- DataAccessLayer.GetMostPopularGoodBuyers: does not model 64-bit overflow of the per-good count sums.
- LINQ deferred execution: query results are computed eagerly over a snapshot of the tables. A lazily enumerated result that sees later store changes is not modelled.
- The web pages (SiteForDB/Pages) are not part of this model. They hold form binding, messages, the create-then-retry insert and the store reset after a failed validation.
- Entity constructors and Id assignment (the `NewVariant.Models` classes) are not part of this model. Entities are plain values with the fields the queries read.
- Concurrency: the store is single-threaded, as in the source.
