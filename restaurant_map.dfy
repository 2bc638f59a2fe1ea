/** The restaurant map page: the price labels of the tooltip, the cuisine
    options of the sidebar, and the star, price and cuisine filters that
    narrow the restaurant table before it is drawn. Drawing the map, the
    coordinates and the widgets themselves are not modelled; the selections
    are parameters. */
module RestaurantMap {
  import opened Collections
  import opened Text

  /** One row of the Michelin table as the page reads it. The price code and
      the tag may be missing (NaN). */
  datatype Restaurant = Restaurant(name: string, star: int, price: Option<int>, tag: Option<string>)

  // ---------------------------------------------------------------------
  // format_price
  // ---------------------------------------------------------------------

  /** The price code a display stands for, if it is one of the four. */
  function PriceCode(display: string): (code: Option<int>)
    ensures code.Some? ==> 1 <= code.value <= 4
  {
    if display == "Under $25" then Some(1)
    else if display == "$25\U{2013}49" then Some(2)
    else if display == "$50\U{2013}99" then Some(3)
    else if display == "$100+" then Some(4)
    else None
  }

  /** `format_price`: the codes 1 to 4 get their dollar range, anything else
      (another number, a missing price) "N/A". No two codes share a label. */
  function FormatPrice(p: Option<int>): (display: string)
    ensures display == "N/A" <==> !(p.Some? && 1 <= p.value <= 4)
    ensures display != "N/A" ==> PriceCode(display) == p
  {
    if p == Some(1) then "Under $25"
    else if p == Some(2) then "$25\U{2013}49"
    else if p == Some(3) then "$50\U{2013}99"
    else if p == Some(4) then "$100+"
    else "N/A"
  }

  // ---------------------------------------------------------------------
  // Cuisine tags
  // ---------------------------------------------------------------------

  /** A piece of a tag as the page compares it: no surrounding whitespace. */
  predicate Stripped(s: string)
  {
    s == [] || (!IsSpace(s[0]) && !IsSpace(s[|s| - 1]))
  }

  /** `[x.strip() for x in tag.split(",")]`. */
  function Pieces(tag: string): (ps: seq<string>)
    ensures |ps| == |SplitOn(tag, ',')|
    ensures forall i :: 0 <= i < |ps| ==> ps[i] == Strip(SplitOn(tag, ',')[i], IsSpace)
    ensures forall p :: p in ps ==> ',' !in p && Stripped(p)
  {
    var raw := SplitOn(tag, ',');
    var ps := seq(|raw|, i requires 0 <= i < |raw| => Strip(raw[i], IsSpace));
    StrippedPieces(raw, ps);
    ps
  }

  /** Stripping comma-free fields leaves comma-free, stripped pieces. */
  lemma StrippedPieces(raw: seq<string>, ps: seq<string>)
    requires forall p :: p in raw ==> ',' !in p
    requires |ps| == |raw| && forall i :: 0 <= i < |raw| ==> ps[i] == Strip(raw[i], IsSpace)
    ensures forall p :: p in ps ==> ',' !in p && Stripped(p)
  {
    forall p | p in ps ensures ',' !in p && Stripped(p) {
      var i :| 0 <= i < |raw| && ps[i] == p;
      assert raw[i] in raw;
      if ',' in p {
        StripKeeps(raw[i], IsSpace, ',');
      }
    }
  }

  /** A tag written as clean, comma-separated names splits back into those
      names. */
  lemma PiecesJoin(names: seq<string>)
    requires |names| >= 1
    requires forall p :: p in names ==> ',' !in p && Stripped(p)
    ensures Pieces(Join([','], names)) == names
  {
    SplitOnJoin(names, ',');
    var ps := Pieces(Join([','], names));
    forall i | 0 <= i < |names| ensures ps[i] == names[i] {
      assert names[i] in names;
    }
  }

  /** `str(t)`: a missing tag prints as "nan". */
  function TagText(tag: Option<string>): (text: string)
    ensures tag.Some? ==> text == tag.value
    ensures tag.None? ==> Pieces(text) == ["nan"]
  {
    if tag.Some? then tag.value
    else
      PiecesJoin(["nan"]);
      "nan"
  }

  /** The stripped comma-pieces of every non-missing tag, in table order. */
  function TagPieces(tags: seq<Option<string>>): (cs: seq<string>)
    ensures forall c :: c in cs ==> ',' !in c && Stripped(c)
  {
    if tags == [] then []
    else (if tags[0].Some? then Pieces(tags[0].value) else []) + TagPieces(tags[1..])
  }

  /** A piece is collected exactly when some non-missing tag has it. */
  lemma {:induction false} TagPiecesMembers(tags: seq<Option<string>>, c: string)
    ensures c in TagPieces(tags) <==>
      exists j :: 0 <= j < |tags| && tags[j].Some? && c in Pieces(tags[j].value)
  {
    if tags != [] {
      var head := if tags[0].Some? then Pieces(tags[0].value) else [];
      var rest := tags[1..];
      assert TagPieces(tags) == head + TagPieces(rest);
      TagPiecesMembers(rest, c);
      if c in TagPieces(tags) {
        if c in head {
          assert 0 < |tags| && tags[0].Some? && c in Pieces(tags[0].value);
        } else {
          var k :| 0 <= k < |rest| && rest[k].Some? && c in Pieces(rest[k].value);
          assert tags[k + 1] == rest[k];
        }
      }
      if exists j :: 0 <= j < |tags| && tags[j].Some? && c in Pieces(tags[j].value) {
        var j :| 0 <= j < |tags| && tags[j].Some? && c in Pieces(tags[j].value);
        if j > 0 {
          assert rest[j - 1] == tags[j];
        }
      }
    }
  }

  /** The cuisine options: "ALL" first, then every distinct stripped piece of
      every non-missing tag, in ascending order. */
  method CuisineOptions(tags: seq<Option<string>>) returns (options: seq<string>)
    ensures |options| >= 1 && options[0] == "ALL"
    ensures StrictlyIncreasing(options[1..]) && Distinct(options[1..])
    ensures forall c :: c in options[1..] <==>
      exists j :: 0 <= j < |tags| && tags[j].Some? && c in Pieces(tags[j].value)
    ensures forall c :: c in options[1..] ==> ',' !in c && Stripped(c)
  {
    var cuisines := SortedUnique(TagPieces(tags));
    options := ["ALL"] + cuisines;
    assert options[1..] == cuisines;
    forall i, j | 0 <= i < j < |cuisines| ensures cuisines[i] != cuisines[j] {
      IncreasingDistinct(cuisines, i, j);
    }
    forall c ensures c in options[1..] <==>
      exists j :: 0 <= j < |tags| && tags[j].Some? && c in Pieces(tags[j].value)
    {
      TagPiecesMembers(tags, c);
    }
  }

  // ---------------------------------------------------------------------
  // The sidebar filters
  // ---------------------------------------------------------------------

  /** Some selected cuisine is one of the stripped pieces of `str(tag)`. */
  predicate MentionsCuisine(tag: Option<string>, cuisines: seq<string>)
  {
    exists c :: c in cuisines && c in Pieces(TagText(tag))
  }

  /** A row passes the star filter, which an empty selection switches off. */
  predicate StarSelected(r: Restaurant, stars: seq<int>)
  {
    stars == [] || r.star in stars
  }

  /** A row passes the price filter, which an empty selection switches off; a
      missing price is never selected. */
  predicate PriceSelected(r: Restaurant, prices: seq<int>)
  {
    prices == [] || (r.price.Some? && r.price.value in prices)
  }

  /** A row passes the cuisine filter, which selecting "ALL" switches off. */
  predicate CuisineSelected(r: Restaurant, cuisines: seq<string>)
  {
    "ALL" in cuisines || MentionsCuisine(r.tag, cuisines)
  }

  /** A row the page shows for the given selections. */
  predicate Selected(r: Restaurant, stars: seq<int>, prices: seq<int>, cuisines: seq<string>)
    ensures stars == [] && prices == [] && "ALL" in cuisines ==> Selected(r, stars, prices, cuisines)
    ensures prices != [] && r.price.None? ==> !Selected(r, stars, prices, cuisines)
    ensures "ALL" !in cuisines && r.tag.None? ==>
      (Selected(r, stars, prices, cuisines) ==> "nan" in cuisines)
  {
    StarSelected(r, stars) && PriceSelected(r, prices) && CuisineSelected(r, cuisines)
  }

  /** The three guarded narrowing steps. The result is the table masked by
      the conjunction of the three filters: an order-preserving subsequence
      holding exactly the selected rows. */
  method FilterRestaurants(rows: seq<Restaurant>, stars: seq<int>, prices: seq<int>, cuisines: seq<string>)
    returns (filtered: seq<Restaurant>)
    ensures filtered == Filter(rows, r => Selected(r, stars, prices, cuisines))
    ensures IsSubsequence(filtered, rows)
    ensures forall r :: r in filtered <==> r in rows && Selected(r, stars, prices, cuisines)
  {
    var byStar := (r: Restaurant) => r.star in stars;
    var byPrice := (r: Restaurant) => r.price.Some? && r.price.value in prices;
    var byCuisine := (r: Restaurant) => MentionsCuisine(r.tag, cuisines);
    ghost var s1 := (r: Restaurant) => StarSelected(r, stars);
    ghost var s2 := (r: Restaurant) => StarSelected(r, stars) && PriceSelected(r, prices);
    ghost var s3 := (r: Restaurant) => Selected(r, stars, prices, cuisines);

    filtered := rows;
    if stars != [] {
      filtered := Filter(filtered, byStar);
      FilterCongruent(rows, byStar, s1);
    }
    assert filtered == Filter(rows, s1);

    if prices != [] {
      filtered := Filter(filtered, byPrice);
      FilterFilter(rows, s1, byPrice, s2);
    } else {
      FilterCongruent(rows, s1, s2);
    }
    assert filtered == Filter(rows, s2);

    if "ALL" !in cuisines {
      filtered := Filter(filtered, byCuisine);
      FilterFilter(rows, s2, byCuisine, s3);
    } else {
      FilterCongruent(rows, s2, s3);
    }
    FilterIsSubsequence(rows, s3);
  }

  /** An empty cuisine selection (not even "ALL") hides every restaurant. */
  lemma NoCuisineNoRows(rows: seq<Restaurant>, stars: seq<int>, prices: seq<int>)
    ensures Filter(rows, r => Selected(r, stars, prices, [])) == []
  {
    FilterNone(rows, r => Selected(r, stars, prices, []));
  }

  /** The default selection (every star, prices 3 and 4, "ALL") keeps exactly
      the one- to three-star restaurants whose price code is 3 or 4. */
  lemma DefaultSelection(r: Restaurant)
    ensures Selected(r, [1, 2, 3], [3, 4], ["ALL"]) <==>
      1 <= r.star <= 3 && (r.price == Some(3) || r.price == Some(4))
  {
  }
}
