/** The consumer-scene page: the styling of the two tables it shows, the
    reduction of a long scene label to its short name, the pins of the scene
    map (known scenes only, with their price text and colour) and the scene
    selection. Reading the three files, the map layer and the view centre are
    not modelled. */
module MarketingMap {
  import opened Collections
  import opened Text

  // ---------------------------------------------------------------------
  // Table styling
  // ---------------------------------------------------------------------

  const HeaderStyle := "background-color: #f0f0f0; font-weight: bold"

  /** `highlight_first_row`: the style of each of the `width` cells of the
      row whose index label is `index`. */
  function HighlightFirstRow(index: int, width: nat): (styles: seq<string>)
    ensures |styles| == width
    ensures forall j :: 0 <= j < width ==> styles[j] == (if index == 0 then HeaderStyle else "")
  {
    seq(width, _ => if index == 0 then HeaderStyle else "")
  }

  /** The styles of a whole table of `rows` rows with the default index. */
  function TopicTableStyles(rows: nat, width: nat): (t: seq<seq<string>>)
  {
    seq(rows, i => HighlightFirstRow(i, width))
  }

  /** Exactly the cells of the first row are highlighted. */
  lemma OnlyFirstRowHighlighted(rows: nat, width: nat)
    ensures |TopicTableStyles(rows, width)| == rows
    ensures forall i, j :: 0 <= i < rows && 0 <= j < width ==>
      |TopicTableStyles(rows, width)[i]| == width &&
      (TopicTableStyles(rows, width)[i][j] != "" <==> i == 0)
  {
    var t := TopicTableStyles(rows, width);
    forall i, j | 0 <= i < rows && 0 <= j < width
      ensures |t[i]| == width && (t[i][j] != "" <==> i == 0)
    {
      assert t[i] == HighlightFirstRow(i, width);
    }
  }

  /** A long scene name: the short name followed by a parenthesised
      description. */
  function LongName(short: string, detail: string): string
  {
    short + " (" + detail + ")"
  }

  /** The background colours of the label table, keyed by the long scene
      names. */
  const SceneHex: map<string, string> := map[
    LongName("Business Fine Dining", "Elegant, Secure, Executive Atmosphere") := "#c6f0f0",
    LongName("Romantic & Intimate Dining", "Calm, Private, Ambience-Focused") := "#ffd6dd",
    LongName("Gourmet Exploration", "Curated, Inventive, Detail-Oriented Culinary Experiences") := "#cce6ff",
    LongName("Social Dining with Friends", "Lively, Relaxed, Fun") := "#fff4cc"
  ]

  /** `style_scene`: every cell of a row gets the colour of the row's scene,
      or no style when the scene is missing or not one of the long names. */
  function StyleScene(scene: Option<string>, width: nat): (styles: seq<string>)
    ensures |styles| == width
    ensures forall j :: 0 <= j < width ==> styles[j] == styles[0]
    ensures forall j :: 0 <= j < width ==>
      (styles[j] == "" <==> !(scene.Some? && scene.value in SceneHex))
    ensures scene.Some? && scene.value in SceneHex ==>
      forall j :: 0 <= j < width ==> styles[j] == "background-color: " + SceneHex[scene.value]
  {
    var color := if scene.Some? && scene.value in SceneHex then SceneHex[scene.value] else "";
    seq(width, _ => if color != "" then "background-color: " + color else "")
  }

  // ---------------------------------------------------------------------
  // The short scene name
  // ---------------------------------------------------------------------

  /** The pattern `^(.*?)\s*\(` matches `s` with the group `s[..g]` and the
      parenthesis at `q`: the group holds no line break (`.` does not match
      one) and only whitespace lies between the group and the parenthesis. */
  predicate MatchesWith(s: string, g: int, q: int)
  {
    && 0 <= g <= q < |s|
    && '\n' !in s[..g]
    && (forall i :: g <= i < q ==> IsSpace(s[i]))
    && s[q] == '('
  }

  /** The position of the first `c` in `s`. */
  function IndexOf(s: string, c: char): (i: Option<nat>)
    ensures i.Some? ==> i.value < |s| && s[i.value] == c && c !in s[..i.value]
    ensures i.None? ==> c !in s
  {
    if s == [] then None
    else if s[0] == c then Some(0)
    else match IndexOf(s[1..], c)
      case None => None
      case Some(j) =>
        assert s[..j + 1] == [s[0]] + s[1..][..j];
        Some(j + 1)
  }

  /** The length of the whitespace run at the end of `s`. */
  function SpaceRun(s: string): (k: nat)
    ensures k <= |s|
    ensures forall i :: |s| - k <= i < |s| ==> IsSpace(s[i])
    ensures k < |s| ==> !IsSpace(s[|s| - k - 1])
  {
    if s == [] || !IsSpace(s[|s| - 1]) then 0
    else SpaceRun(s[..|s| - 1]) + 1
  }

  /** No match has a group shorter than the text before the first
      parenthesis less its trailing whitespace. */
  lemma NoShorterMatch(s: string, p: nat, g: int, q: int)
    requires p < |s| && s[p] == '(' && '(' !in s[..p]
    requires g < p - SpaceRun(s[..p])
    ensures !MatchesWith(s, g, q)
  {
    var k := SpaceRun(s[..p]);
    assert forall i :: 0 <= i < p ==> s[i] != '(' by {
      forall i | 0 <= i < p ensures s[i] != '(' {
        assert s[..p][i] == s[i];
      }
    }
    if 0 <= g && p <= q < |s| {
      var w := if q == p then p - k - 1 else p;
      assert g <= w < q && !IsSpace(s[w]) by {
        if q == p {
          assert s[..p][p - k - 1] == s[p - k - 1];
        }
      }
    }
  }

  /** `str.extract(r"^(.*?)\s*\(")`: the length of the group of the match
      with the shortest group, or nothing when the pattern does not match. */
  function Extract(s: string): (g: Option<nat>)
    ensures g.Some? ==> exists q :: MatchesWith(s, g.value, q)
    ensures g.Some? ==> forall g', q :: g' < g.value ==> !MatchesWith(s, g', q)
    ensures g.None? ==> forall g', q :: !MatchesWith(s, g', q)
  {
    match IndexOf(s, '(')
    case None => None
    case Some(p) =>
      var k := SpaceRun(s[..p]);
      var g := p - k;
      assert forall i :: g <= i < p ==> IsSpace(s[i]) by {
        forall i | g <= i < p ensures IsSpace(s[i]) {
          assert s[..p][i] == s[i];
        }
      }
      assert forall g', q :: g' < g ==> !MatchesWith(s, g', q) by {
        forall g', q | g' < g ensures !MatchesWith(s, g', q) {
          NoShorterMatch(s, p, g', q);
        }
      }
      if '\n' in s[..g] then
        assert forall g', q :: g <= g' ==> !MatchesWith(s, g', q) by {
          forall g', q | g <= g' ensures !MatchesWith(s, g', q) {
            if g' <= |s| {
              assert s[..g] == s[..g'][..g];
            }
          }
        }
        None
      else
        assert MatchesWith(s, g, p);
        Some(g)
  }

  /** `clean_scene`: the extracted group, or the whole label when the pattern
      does not match. */
  function CleanScene(s: string): (r: string)
    ensures (forall g, q :: !MatchesWith(s, g, q)) ==> r == s
    ensures (exists g, q :: MatchesWith(s, g, q)) ==>
      && |r| <= |s| && r == s[..|r|]
      && (exists q :: MatchesWith(s, |r|, q))
      && forall g, q :: g < |r| ==> !MatchesWith(s, g, q)
    ensures '(' !in s ==> r == s
  {
    match Extract(s)
    case Some(g) => s[..g]
    case None => s
  }

  /** The position of a character that occurs exactly once up to it. */
  lemma IndexOfAt(s: string, c: char, i: nat)
    requires i < |s| && s[i] == c && c !in s[..i]
    ensures IndexOf(s, c) == Some(i)
  {
    var j := IndexOf(s, c);
    assert j.Some? by {
      assert s[i] in s;
    }
    var v := j.value;
    assert forall t :: 0 <= t < i ==> s[t] != c by {
      forall t | 0 <= t < i ensures s[t] != c {
        assert s[..i][t] == s[t];
      }
    }
    assert forall t :: 0 <= t < v ==> s[t] != c by {
      forall t | 0 <= t < v ensures s[t] != c {
        assert s[..v][t] == s[t];
      }
    }
  }

  /** A long name reduces to its short name. */
  lemma CleanLongName(short: string, detail: string)
    requires ShortName(short)
    ensures CleanScene(LongName(short, detail)) == short
  {
    var s := LongName(short, detail);
    var p := |short| + 1;
    assert s[..p] == short + " ";
    IndexOfAt(s, '(', p);
    assert SpaceRun(s[..p]) == 1 by {
      assert (short + " ")[..|short|] == short;
    }
    assert s[..|short|] == short;
  }

  // ---------------------------------------------------------------------
  // The scene map
  // ---------------------------------------------------------------------

  /** The pin colour of each short scene name. */
  const SceneColours: map<string, seq<int>> := map[
    "Business Fine Dining" := [75, 192, 192],
    "Romantic & Intimate Dining" := [255, 99, 132],
    "Gourmet Exploration" := [54, 162, 235],
    "Social Dining with Friends" := [255, 205, 86]
  ]

  /** The short scene names in the order the selector lists them. */
  const SceneKeys: seq<string> := [
    "Business Fine Dining", "Romantic & Intimate Dining",
    "Gourmet Exploration", "Social Dining with Friends"
  ]

  /** The selector lists exactly the scenes that have a colour. */
  lemma SceneKeysComplete()
    ensures forall k :: k in SceneKeys <==> k in SceneColours
  {
  }

  /** Every coloured scene name is short, so the long label built from it
      reduces back to it. */
  lemma ColouredNamesAreShort()
    ensures forall k :: k in SceneColours ==> ShortName(k)
  {
    assert ShortName("Business Fine Dining") by {
      ShortNameHolds("Business Fine Dining");
    }
    assert ShortName("Romantic & Intimate Dining") by {
      ShortNameHolds("Romantic & Intimate Dining");
    }
    assert ShortName("Gourmet Exploration") by {
      ShortNameHolds("Gourmet Exploration");
    }
    assert ShortName("Social Dining with Friends") by {
      ShortNameHolds("Social Dining with Friends");
    }
  }

  /** A name is short when none of its characters is a parenthesis or a
      line break and it does not end in whitespace. */
  lemma ShortNameHolds(k: string)
    requires forall i :: 0 <= i < |k| ==> k[i] != '(' && k[i] != '\n'
    requires k == [] || !IsSpace(k[|k| - 1])
    ensures ShortName(k)
  {
  }

  /** A short scene name: no parenthesis, no line break, no trailing
      whitespace. */
  predicate ShortName(k: string)
  {
    '(' !in k && '\n' !in k && (k == [] || !IsSpace(k[|k| - 1]))
  }

  /** One restaurant row of the merged table; the scene may be missing. */
  datatype Listing = Listing(name: string, star: int, price: Option<int>, tag: Option<string>, scene: Option<string>)

  /** A restaurant as the map shows it. */
  datatype Pin = Pin(listing: Listing, cleanScene: string, priceDisplay: string, color: seq<int>)

  /** `clean_scene` of a row: missing stays missing (`fillna` puts the
      missing label back), and a present label is shortened to a prefix of
      itself. */
  function RowScene(l: Listing): (scene: Option<string>)
    ensures scene.Some? <==> l.scene.Some?
    ensures scene.Some? ==> scene.value == CleanScene(l.scene.value)
    ensures scene.Some? ==> |scene.value| <= |l.scene.value| && scene.value == l.scene.value[..|scene.value|]
  {
    if l.scene.Some? then
      var s := l.scene.value;
      assert CleanScene(s) == s[..|CleanScene(s)|] by {
        if forall g, q :: !MatchesWith(s, g, q) {
          assert CleanScene(s) == s;
        }
      }
      Some(CleanScene(s))
    else None
  }

  /** A row whose short scene has a pin colour. */
  predicate KnownScene(l: Listing)
  {
    RowScene(l).Some? && RowScene(l).value in SceneColours
  }

  /** The price text of the scene map: only code 4 is "$100+", every other
      code, and a missing price, reads "$50-99". */
  function PriceDisplay(price: Option<int>): (display: string)
    ensures display == "$100+" <==> price == Some(4)
    ensures display != "$100+" ==> display == "$50\U{2013}99"
  {
    if price == Some(4) then "$100+" else "$50\U{2013}99"
  }

  /** The rows the map keeps, with their short scene, price text and colour. */
  method ScenePins(rows: seq<Listing>) returns (pins: seq<Pin>)
    ensures |pins| == |Filter(rows, KnownScene)|
    ensures forall i :: 0 <= i < |pins| ==> pins[i].listing == Filter(rows, KnownScene)[i]
    ensures forall i :: 0 <= i < |pins| ==>
      && pins[i].cleanScene in SceneColours
      && RowScene(pins[i].listing) == Some(pins[i].cleanScene)
      && pins[i].color == SceneColours[pins[i].cleanScene]
      && (pins[i].priceDisplay == "$100+" <==> pins[i].listing.price == Some(4))
      && pins[i].priceDisplay == PriceDisplay(pins[i].listing.price)
  {
    var known := Filter(rows, KnownScene);
    pins := seq(|known|, i requires 0 <= i < |known| =>
      assert known[i] in known;
      var scene := RowScene(known[i]).value;
      Pin(known[i], scene, PriceDisplay(known[i].price), SceneColours[scene]));
    forall i | 0 <= i < |pins|
      ensures && pins[i].cleanScene in SceneColours
              && RowScene(pins[i].listing) == Some(pins[i].cleanScene)
              && pins[i].color == SceneColours[pins[i].cleanScene]
              && (pins[i].priceDisplay == "$100+" <==> pins[i].listing.price == Some(4))
              && pins[i].priceDisplay == PriceDisplay(pins[i].listing.price)
    {
      assert known[i] in known;
      assert pins[i].listing == known[i];
    }
  }

  /** The scene selection: the pins whose short scene is selected, in order. */
  function SelectScenes(pins: seq<Pin>, selected: seq<string>): (shown: seq<Pin>)
    ensures IsSubsequence(shown, pins)
    ensures forall p :: p in shown <==> p in pins && p.cleanScene in selected
  {
    var keep := (p: Pin) => p.cleanScene in selected;
    FilterIsSubsequence(pins, keep);
    Filter(pins, keep)
  }

  /** With the default selection, every pin is shown. */
  lemma DefaultSelectionShowsAll(rows: seq<Listing>, pins: seq<Pin>)
    requires forall p :: p in pins ==> p.cleanScene in SceneColours
    ensures SelectScenes(pins, SceneKeys) == pins
  {
    SceneKeysComplete();
  }
}
