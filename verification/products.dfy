/** The decoded page data (`jsonProducts`) and the `Product` records built from it. */
module Products {
  import Strings

  /** A Go `float64`, kept as its bit pattern: prices are only copied, never computed with. */
  datatype Float64 = Float64(bits: bv64)

  /** `filters.dimensions` of a tile. */
  datatype Dimensions = Dimensions(refurbClearModel: string, dimensionColor: string, dimensionCapacity: string)

  /** `price` of a tile. */
  datatype TilePrice = TilePrice(seoPrice: Float64, originalProductAmount: Float64)

  /** One entry of the `tiles` array of the embedded data. */
  datatype Tile = Tile(
    dimensions: Dimensions,
    partNumber: string,
    title: string,
    productDetailsUrl: string,
    price: TilePrice,
    imageSrc: string)

  datatype Product = Product(
    id: string,
    family: string,
    color: string,
    capacity: string,
    name: string,
    price: Float64,
    originalPrice: Float64,
    imageUrl: string,
    storeUrl: string,
    locale: string,
    category: string)

  /** `strings.Split(url, "?")[0]`: the URL without its query string. */
  function StripQuery(url: string): (r: string)
    ensures |r| <= |url| && url[..|r|] == r
    ensures '?' !in r
    ensures |r| < |url| ==> url[|r|] == '?'
    ensures '?' !in url ==> r == url
  {
    Strings.FirstField(url, '?')
  }

  /** Stripping the query string a second time changes nothing. */
  lemma StripQueryIdempotent(url: string)
    ensures StripQuery(StripQuery(url)) == StripQuery(url)
  {
  }

  /** The product built for one tile of a task: the tile's fields, up to the
      query strings of its URLs, plus the task's locale and category. */
  function ToProduct(t: Tile, locale: string, category: string): (p: Product)
    ensures TileOf(p) == WithoutQueries(t)
    ensures p.locale == locale && p.category == category
  {
    Product(
      t.partNumber,
      t.dimensions.refurbClearModel,
      t.dimensions.dimensionColor,
      t.dimensions.dimensionCapacity,
      t.title,
      t.price.seoPrice,
      t.price.originalProductAmount,
      StripQuery(t.imageSrc),
      StripQuery(t.productDetailsUrl),
      locale,
      category)
  }

  /** The products of one task: one per tile, in tile order, each tagged with the task. */
  function ToProducts(tiles: seq<Tile>, locale: string, category: string): (ps: seq<Product>)
    ensures |ps| == |tiles|
    ensures forall i :: 0 <= i < |ps| ==> ps[i].locale == locale && ps[i].category == category
    ensures forall i :: 0 <= i < |ps| ==> '?' !in ps[i].imageUrl && '?' !in ps[i].storeUrl
  {
    seq(|tiles|, i requires 0 <= i < |tiles| => ToProduct(tiles[i], locale, category))
  }

  /** The tile a product was read from, as far as the product records it. */
  function TileOf(p: Product): Tile {
    Tile(
      Dimensions(p.family, p.color, p.capacity),
      p.id,
      p.name,
      p.storeUrl,
      TilePrice(p.price, p.originalPrice),
      p.imageUrl)
  }

  /** The tile with the query strings of both URLs removed. */
  function WithoutQueries(t: Tile): Tile {
    t.(productDetailsUrl := StripQuery(t.productDetailsUrl), imageSrc := StripQuery(t.imageSrc))
  }

  /** Building a product copies every tile field into a distinct product
      field: reading the tile back gives the tile itself, up to the query strings,
      and exactly the tile when neither URL has one. */
  lemma ProductRoundTrip(t: Tile, locale: string, category: string)
    ensures TileOf(ToProduct(t, locale, category)) == WithoutQueries(t)
    ensures TileOf(ToProduct(t, locale, category)) == t <==> '?' !in t.productDetailsUrl && '?' !in t.imageSrc
  {
  }
}
