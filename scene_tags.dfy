/** `merge_scene_labels`: the hand-edited topic table is checked for its label
    columns, its missing `consumer_type` cells are defaulted to the topic id,
    and its labels are left-joined onto the restaurant table on
    `dominant_topic = topic_id`, after which `topic_id` is dropped.

    Tables are modelled as pandas holds them: an ordered list of column names
    and rows mapping each column to a cell. Reading and writing the files is
    not modelled; the two tables are parameters. */
module SceneTags {
  import opened Collections

  /** A spreadsheet cell: missing (NaN), an integer, or text. */
  datatype Cell = Null | Int(i: int) | Str(s: string)

  type Row = map<string, Cell>

  /** A data frame: its column names in order and its rows. */
  datatype Frame = Frame(columns: seq<string>, rows: seq<Row>)

  /** Why the merge stops: the `ValueError` of the label-column check, or the
      `KeyError` pandas raises for a column that is not there. */
  datatype MergeError = MissingLabelColumns | MissingColumn(name: string)

  datatype Result<T> = Ok(value: T) | Err(error: MergeError)

  const TopicId := "topic_id"
  const ConsumerType := "consumer_type"
  const ConsumerScene := "consumer_scene"
  const DominantTopic := "dominant_topic"

  function ColumnSet(columns: seq<string>): set<string>
  {
    set c | c in columns
  }

  /** Column names are distinct and every row holds exactly those columns. */
  predicate WellFormed(f: Frame)
  {
    Distinct(f.columns) && forall r :: r in f.rows ==> r.Keys == ColumnSet(f.columns)
  }

  // ---------------------------------------------------------------------
  // The three frame operations the merge uses
  // ---------------------------------------------------------------------

  /** `f[target] = f[target].fillna(f[source])`: a missing `target` cell takes
      the same row's `source` cell; every other cell stays. */
  function FillMissing(f: Frame, target: string, source: string): (g: Frame)
    requires WellFormed(f) && target in f.columns && source in f.columns
    ensures WellFormed(g) && g.columns == f.columns && |g.rows| == |f.rows|
    ensures forall i :: 0 <= i < |f.rows| ==>
      && (f.rows[i][target] != Null ==> g.rows[i][target] == f.rows[i][target])
      && (f.rows[i][target] == Null ==> g.rows[i][target] == f.rows[i][source])
      && (forall c :: c in f.rows[i] && c != target ==> g.rows[i][c] == f.rows[i][c])
  {
    var rows := seq(|f.rows|, i requires 0 <= i < |f.rows| =>
      var r := f.rows[i];
      assert r in f.rows;
      r[target := if r[target] == Null then r[source] else r[target]]);
    Frame(f.columns, rows)
  }

  /** The cells of `row` in the columns `cols`. */
  function Project(row: Row, cols: set<string>): (p: Row)
    ensures p.Keys == row.Keys * cols
    ensures forall c :: c in p ==> p[c] == row[c]
  {
    map c | c in row && c in cols :: row[c]
  }

  /** `f[cols]`: only the listed columns, in the listed order. */
  function Select(f: Frame, cols: seq<string>): (g: Frame)
    requires WellFormed(f) && Distinct(cols) && forall c :: c in cols ==> c in f.columns
    ensures WellFormed(g) && g.columns == cols && |g.rows| == |f.rows|
    ensures forall i :: 0 <= i < |f.rows| ==> g.rows[i] == Project(f.rows[i], ColumnSet(cols))
  {
    var rows := seq(|f.rows|, i requires 0 <= i < |f.rows| => Project(f.rows[i], ColumnSet(cols)));
    assert forall r :: r in rows ==> r.Keys == ColumnSet(cols) by {
      forall r | r in rows ensures r.Keys == ColumnSet(cols) {
        var i :| 0 <= i < |rows| && rows[i] == r;
        assert f.rows[i] in f.rows;
      }
    }
    Frame(cols, rows)
  }

  /** The right-hand rows whose `rightKey` cell equals `key`, in order. */
  function MatchingRows(rights: seq<Row>, rightKey: string, key: Cell): (ms: seq<Row>)
    ensures forall m :: m in ms ==> m in rights && rightKey in m && m[rightKey] == key
  {
    Filter(rights, r => rightKey in r && r[rightKey] == key)
  }

  /** A row of missing cells over `cols`. */
  function NullRow(cols: seq<string>): (r: Row)
    ensures r.Keys == ColumnSet(cols)
    ensures forall c :: c in r ==> r[c] == Null
  {
    map c | c in cols :: Null
  }

  /** The output rows of one left row: one per matching right row, or a single
      row with missing right-hand cells when nothing matches. */
  function JoinRow(l: Row, right: Frame, leftKey: string, rightKey: string): (out: seq<Row>)
    requires leftKey in l
    ensures |out| >= 1
  {
    var ms := MatchingRows(right.rows, rightKey, l[leftKey]);
    if ms == [] then [l + NullRow(right.columns)]
    else seq(|ms|, j requires 0 <= j < |ms| => l + ms[j])
  }

  function LeftMergeRows(ls: seq<Row>, right: Frame, leftKey: string, rightKey: string): (out: seq<Row>)
    requires forall l :: l in ls ==> leftKey in l
    ensures |out| >= |ls|
  {
    if ls == [] then []
    else JoinRow(ls[0], right, leftKey, rightKey) + LeftMergeRows(ls[1..], right, leftKey, rightKey)
  }

  /** `left.merge(right, left_on=leftKey, right_on=rightKey, how="left")` for
      tables with no column name in common. */
  function LeftMerge(left: Frame, right: Frame, leftKey: string, rightKey: string): (m: Frame)
    requires WellFormed(left) && WellFormed(right)
    requires leftKey in left.columns && rightKey in right.columns
    requires forall c :: c in left.columns ==> c !in right.columns
    ensures WellFormed(m) && m.columns == left.columns + right.columns
  {
    var rows := LeftMergeRows(left.rows, right, leftKey, rightKey);
    MergedRowsWellFormed(left, right, leftKey, rightKey, left.rows);
    assert Distinct(left.columns + right.columns) by {
      var cs := left.columns + right.columns;
      forall i, j | 0 <= i < j < |cs| ensures cs[i] != cs[j] {
        if j < |left.columns| {
        } else if i >= |left.columns| {
          assert cs[i] == right.columns[i - |left.columns|];
          assert cs[j] == right.columns[j - |left.columns|];
        } else {
          assert cs[i] in left.columns;
        }
      }
    }
    Frame(left.columns + right.columns, rows)
  }

  lemma {:induction false} MergedRowsWellFormed(left: Frame, right: Frame, leftKey: string, rightKey: string, ls: seq<Row>)
    requires WellFormed(left) && WellFormed(right)
    requires forall l :: l in ls ==> l in left.rows && leftKey in l
    ensures forall r :: r in LeftMergeRows(ls, right, leftKey, rightKey) ==>
      r.Keys == ColumnSet(left.columns + right.columns)
  {
    if ls != [] {
      assert ls[0] in ls;
      MergedRowsWellFormed(left, right, leftKey, rightKey, ls[1..]);
      JoinRowWellFormed(left, right, leftKey, rightKey, ls[0]);
      var out := LeftMergeRows(ls, right, leftKey, rightKey);
      assert out == JoinRow(ls[0], right, leftKey, rightKey) + LeftMergeRows(ls[1..], right, leftKey, rightKey);
    }
  }

  /** Every row one left row joins to holds the columns of both tables. */
  lemma JoinRowWellFormed(left: Frame, right: Frame, leftKey: string, rightKey: string, l: Row)
    requires WellFormed(left) && WellFormed(right)
    requires l in left.rows && leftKey in l
    ensures forall r :: r in JoinRow(l, right, leftKey, rightKey) ==>
      r.Keys == ColumnSet(left.columns + right.columns)
  {
    var ms := MatchingRows(right.rows, rightKey, l[leftKey]);
    var cols := ColumnSet(left.columns + right.columns);
    assert cols == ColumnSet(left.columns) + ColumnSet(right.columns);
    forall r | r in JoinRow(l, right, leftKey, rightKey) ensures r.Keys == cols {
      if ms != [] {
        var j :| 0 <= j < |ms| && JoinRow(l, right, leftKey, rightKey)[j] == r;
        assert ms[j] in ms;
      }
    }
  }

  /** `f.drop(columns=[col])`. */
  function DropColumn(f: Frame, col: string): (g: Frame)
    requires WellFormed(f)
    ensures WellFormed(g) && g.columns == Filter(f.columns, c => c != col)
    ensures ColumnSet(g.columns) == ColumnSet(f.columns) - {col}
    ensures |g.rows| == |f.rows|
    ensures forall i :: 0 <= i < |f.rows| ==> g.rows[i] == f.rows[i] - {col}
  {
    var columns := Filter(f.columns, c => c != col);
    var rows := seq(|f.rows|, i requires 0 <= i < |f.rows| => f.rows[i] - {col});
    assert Distinct(columns) by {
      FilterIsSubsequence(f.columns, c => c != col);
      var idx :| Embeds(idx, columns, f.columns);
    }
    assert forall r :: r in rows ==> r.Keys == ColumnSet(columns) by {
      forall r | r in rows ensures r.Keys == ColumnSet(columns) {
        var i :| 0 <= i < |rows| && rows[i] == r;
        assert f.rows[i] in f.rows;
      }
    }
    Frame(columns, rows)
  }

  // ---------------------------------------------------------------------
  // What a restaurant row should receive
  // ---------------------------------------------------------------------

  /** The topic table's rows carry the three columns the merge reads. */
  predicate HasLabelColumns(rows: seq<Row>)
  {
    forall t :: t in rows ==> TopicId in t && ConsumerType in t && ConsumerScene in t
  }

  /** No two topic rows share a `topic_id`. */
  predicate UniqueTopicIds(rows: seq<Row>)
    requires HasLabelColumns(rows)
  {
    forall i, j :: 0 <= i < j < |rows| ==> rows[i][TopicId] != rows[j][TopicId]
  }

  /** The first topic row whose `topic_id` is `key`. */
  function FindTopic(rows: seq<Row>, key: Cell): (t: Option<Row>)
    requires HasLabelColumns(rows)
    ensures t.Some? ==> t.value in rows && t.value[TopicId] == key
    ensures t.None? ==> forall r :: r in rows ==> r[TopicId] != key
  {
    if rows == [] then None
    else if rows[0][TopicId] == key then Some(rows[0])
    else FindTopic(rows[1..], key)
  }

  /** The label cells of a topic row once `consumer_type` is defaulted. */
  function TopicLabels(t: Row): (labels: Row)
    requires TopicId in t && ConsumerType in t && ConsumerScene in t
    ensures labels.Keys == {ConsumerType, ConsumerScene}
    ensures labels[ConsumerType] == if t[ConsumerType] == Null then t[TopicId] else t[ConsumerType]
    ensures labels[ConsumerScene] == t[ConsumerScene]
  {
    map[ConsumerType := if t[ConsumerType] == Null then t[TopicId] else t[ConsumerType],
        ConsumerScene := t[ConsumerScene]]
  }

  /** The labels a restaurant whose dominant topic is `key` should carry: its
      topic's labels, or missing cells when no topic has that id. */
  function ExpectedLabels(rows: seq<Row>, key: Cell): (labels: Row)
    requires HasLabelColumns(rows)
    ensures labels.Keys == {ConsumerType, ConsumerScene}
  {
    match FindTopic(rows, key)
    case Some(t) => TopicLabels(t)
    case None => map[ConsumerType := Null, ConsumerScene := Null]
  }

  /** A label row as the merge sees it: `topic_id`, the defaulted
      `consumer_type`, and `consumer_scene`. */
  function LabelRow(t: Row): (r: Row)
    requires TopicId in t && ConsumerType in t && ConsumerScene in t
    ensures r.Keys == {TopicId, ConsumerType, ConsumerScene}
    ensures r[TopicId] == t[TopicId]
    ensures r - {TopicId} == TopicLabels(t)
  {
    TopicLabels(t)[TopicId := t[TopicId]]
  }

  /** No label row matches a key that no topic row carries. */
  lemma {:induction false} NoMatchingLabelRows(ts: seq<Row>, key: Cell)
    requires HasLabelColumns(ts)
    requires forall r :: r in ts ==> r[TopicId] != key
    ensures MatchingRows(LabelRows(ts), TopicId, key) == []
  {
    if ts != [] {
      var ls := LabelRows(ts);
      assert ts[0] in ts;
      assert ls[1..] == LabelRows(ts[1..]);
      NoMatchingLabelRows(ts[1..], key);
    }
  }

  /** With unique topic ids, the label rows matching a key are the one row of
      the topic with that id, or none. */
  lemma {:induction false} MatchingLabelRows(ts: seq<Row>, key: Cell)
    requires HasLabelColumns(ts) && UniqueTopicIds(ts)
    ensures FindTopic(ts, key).Some? ==>
      MatchingRows(LabelRows(ts), TopicId, key) == [LabelRow(FindTopic(ts, key).value)]
    ensures FindTopic(ts, key).None? ==> MatchingRows(LabelRows(ts), TopicId, key) == []
  {
    if ts != [] {
      if ts[0][TopicId] == key {
        MatchingFirst(ts, key);
      } else {
        MatchingCons(ts, key);
        assert UniqueTopicIds(ts[1..]);
        MatchingLabelRows(ts[1..], key);
      }
    }
  }

  /** The first topic row carries the key, and no later one does. */
  lemma MatchingFirst(ts: seq<Row>, key: Cell)
    requires ts != [] && HasLabelColumns(ts) && UniqueTopicIds(ts)
    requires ts[0][TopicId] == key
    ensures MatchingRows(LabelRows(ts), TopicId, key) == [LabelRow(ts[0])]
  {
    MatchingCons(ts, key);
    forall r | r in ts[1..] ensures r[TopicId] != key {
      var j :| 0 <= j < |ts[1..]| && ts[1..][j] == r;
      assert ts[j + 1] == r;
    }
    NoMatchingLabelRows(ts[1..], key);
  }

  /** Matching the label rows looks at the first topic row, then the rest. */
  lemma MatchingCons(ts: seq<Row>, key: Cell)
    requires ts != [] && HasLabelColumns(ts)
    ensures MatchingRows(LabelRows(ts), TopicId, key) ==
      (if ts[0][TopicId] == key then [LabelRow(ts[0])] else []) + MatchingRows(LabelRows(ts[1..]), TopicId, key)
  {
    var ls := LabelRows(ts);
    assert ls[1..] == LabelRows(ts[1..]);
  }

  function LabelRows(ts: seq<Row>): (ls: seq<Row>)
    requires HasLabelColumns(ts)
    ensures |ls| == |ts|
    ensures forall i :: 0 <= i < |ts| ==> ls[i] == LabelRow(ts[i])
  {
    seq(|ts|, i requires 0 <= i < |ts| => LabelRow(ts[i]))
  }

  /** `topics[[topic_id, consumer_type, consumer_scene]]` after the fill is the
      label-row view of the topic table. */
  lemma SelectedLabels(topics: Frame)
    requires WellFormed(topics)
    requires TopicId in topics.columns && ConsumerType in topics.columns && ConsumerScene in topics.columns
    ensures HasLabelColumns(topics.rows)
    ensures Select(FillMissing(topics, ConsumerType, TopicId), [TopicId, ConsumerType, ConsumerScene]).rows
      == LabelRows(topics.rows)
  {
    var filled := FillMissing(topics, ConsumerType, TopicId);
    var sel := Select(filled, [TopicId, ConsumerType, ConsumerScene]);
    assert HasLabelColumns(topics.rows) by {
      forall t | t in topics.rows ensures TopicId in t && ConsumerType in t && ConsumerScene in t {
        assert t.Keys == ColumnSet(topics.columns);
      }
    }
    var cols := [TopicId, ConsumerType, ConsumerScene];
    assert ColumnSet(cols) == {TopicId, ConsumerType, ConsumerScene};
    forall i | 0 <= i < |topics.rows| ensures sel.rows[i] == LabelRow(topics.rows[i]) {
      var t := topics.rows[i];
      assert t in topics.rows;
      assert filled.rows[i] in filled.rows;
      ProjectedLabels(t, filled.rows[i]);
    }
  }

  /** Projecting a filled topic row onto the three merge columns gives its
      label row. */
  lemma ProjectedLabels(t: Row, filled: Row)
    requires TopicId in t && ConsumerType in t && ConsumerScene in t
    requires filled.Keys == t.Keys
    requires filled[TopicId] == t[TopicId] && filled[ConsumerScene] == t[ConsumerScene]
    requires filled[ConsumerType] == if t[ConsumerType] == Null then t[TopicId] else t[ConsumerType]
    ensures Project(filled, {TopicId, ConsumerType, ConsumerScene}) == LabelRow(t)
  {
    var p := Project(filled, {TopicId, ConsumerType, ConsumerScene});
    var q := LabelRow(t);
    assert p.Keys == q.Keys;
    assert q[ConsumerType] == (q - {TopicId})[ConsumerType];
    assert q[ConsumerScene] == (q - {TopicId})[ConsumerScene];
    forall k | k in p ensures p[k] == q[k] {
    }
  }

  /** A restaurant row with its labels, as the merge emits it once `topic_id`
      is dropped. */
  function Labelled(l: Row, rows: seq<Row>): Row
    requires DominantTopic in l && HasLabelColumns(rows)
  {
    l + ExpectedLabels(rows, l[DominantTopic])
  }

  /** The label frame the merge joins against. */
  function LabelFrame(topics: Frame): Frame
    requires HasLabelColumns(topics.rows)
  {
    Frame([TopicId, ConsumerType, ConsumerScene], LabelRows(topics.rows))
  }

  /** With unique topic ids, one restaurant row joins to exactly one row,
      which is the restaurant row with its labels once `topic_id` is dropped. */
  lemma JoinUnique(l: Row, topics: Frame)
    requires HasLabelColumns(topics.rows) && UniqueTopicIds(topics.rows)
    requires DominantTopic in l && TopicId !in l
    ensures |JoinRow(l, LabelFrame(topics), DominantTopic, TopicId)| == 1
    ensures JoinRow(l, LabelFrame(topics), DominantTopic, TopicId)[0] - {TopicId} == Labelled(l, topics.rows)
  {
    var key := l[DominantTopic];
    MatchingLabelRows(topics.rows, key);
    var out := JoinRow(l, LabelFrame(topics), DominantTopic, TopicId);
    if FindTopic(topics.rows, key).Some? {
      var lr := LabelRow(FindTopic(topics.rows, key).value);
      assert out == [l + lr];
      DropFromUnion(l, lr);
    } else {
      var nulls := NullRow([TopicId, ConsumerType, ConsumerScene]);
      assert out == [l + nulls];
      NullLabels();
      DropFromUnion(l, nulls);
    }
  }

  lemma DropFromUnion(l: Row, r: Row)
    requires TopicId !in l
    ensures (l + r) - {TopicId} == l + (r - {TopicId})
  {
  }

  lemma NullLabels()
    ensures NullRow([TopicId, ConsumerType, ConsumerScene]) - {TopicId} ==
      map[ConsumerType := Null, ConsumerScene := Null]
  {
    var n := NullRow([TopicId, ConsumerType, ConsumerScene]);
    assert ColumnSet([TopicId, ConsumerType, ConsumerScene]) == {TopicId, ConsumerType, ConsumerScene};
    assert (n - {TopicId}).Keys == {ConsumerType, ConsumerScene};
  }

  /** The rows with their `topic_id` cell dropped. */
  function DropTopicIds(rows: seq<Row>): (ds: seq<Row>)
    ensures |ds| == |rows|
    ensures forall j :: 0 <= j < |rows| ==> ds[j] == rows[j] - {TopicId}
  {
    seq(|rows|, j requires 0 <= j < |rows| => rows[j] - {TopicId})
  }

  lemma DropTopicIdsAppend(a: seq<Row>, b: seq<Row>)
    ensures DropTopicIds(a + b) == DropTopicIds(a) + DropTopicIds(b)
  {
  }

  /** Every restaurant row with the labels of its dominant topic. */
  function LabelledRows(ls: seq<Row>, rows: seq<Row>): (out: seq<Row>)
    requires forall l :: l in ls ==> DominantTopic in l
    requires HasLabelColumns(rows)
    ensures |out| == |ls|
    ensures forall i :: 0 <= i < |ls| ==> out[i] == Labelled(ls[i], rows)
  {
    seq(|ls|, i requires 0 <= i < |ls| => Labelled(ls[i], rows))
  }

  lemma LabelledRowsCons(ls: seq<Row>, rows: seq<Row>)
    requires ls != []
    requires forall l :: l in ls ==> DominantTopic in l
    requires HasLabelColumns(rows)
    ensures LabelledRows(ls, rows) == [Labelled(ls[0], rows)] + LabelledRows(ls[1..], rows)
  {
    var whole := LabelledRows(ls, rows);
    var tail := LabelledRows(ls[1..], rows);
    forall i | 0 <= i < |tail| ensures whole[i + 1] == tail[i] {
      assert ls[1..][i] == ls[i + 1];
    }
    SeqCons(whole, Labelled(ls[0], rows), tail);
  }

  /** With unique topic ids, the merge followed by the drop gives exactly one
      labelled row per restaurant row, in order. */
  lemma {:induction false} MergeUnique(ls: seq<Row>, topics: Frame)
    requires HasLabelColumns(topics.rows) && UniqueTopicIds(topics.rows)
    requires forall l :: l in ls ==> DominantTopic in l && TopicId !in l
    ensures DropTopicIds(LeftMergeRows(ls, LabelFrame(topics), DominantTopic, TopicId))
      == LabelledRows(ls, topics.rows)
  {
    if ls != [] {
      var l := ls[0];
      assert l in ls;
      var first := JoinRow(l, LabelFrame(topics), DominantTopic, TopicId);
      var rest := LeftMergeRows(ls[1..], LabelFrame(topics), DominantTopic, TopicId);
      assert DropTopicIds(first) == [Labelled(l, topics.rows)] by {
        JoinUnique(l, topics);
      }
      assert DropTopicIds(rest) == LabelledRows(ls[1..], topics.rows) by {
        MergeUnique(ls[1..], topics);
      }
      assert LeftMergeRows(ls, LabelFrame(topics), DominantTopic, TopicId) == first + rest;
      DropTopicIdsAppend(first, rest);
      LabelledRowsCons(ls, topics.rows);
    }
  }

  /** The cells of a merged row that came from the restaurant table. */
  function Unlabel(rows: seq<Row>): (us: seq<Row>)
    ensures |us| == |rows|
    ensures forall j :: 0 <= j < |rows| ==> us[j] == rows[j] - {TopicId, ConsumerType, ConsumerScene}
  {
    seq(|rows|, j requires 0 <= j < |rows| => rows[j] - {TopicId, ConsumerType, ConsumerScene})
  }

  /** Whatever the topic table holds, every restaurant row survives a left
      merge, in its original order. */
  lemma {:induction false} MergeKeepsRows(ls: seq<Row>, right: Frame)
    requires forall l :: l in ls ==> DominantTopic in l
    requires forall l :: l in ls ==> TopicId !in l && ConsumerType !in l && ConsumerScene !in l
    requires ColumnSet(right.columns) == {TopicId, ConsumerType, ConsumerScene}
    requires forall r :: r in right.rows ==> r.Keys == ColumnSet(right.columns)
    ensures IsSubsequence(ls, Unlabel(LeftMergeRows(ls, right, DominantTopic, TopicId)))
  {
    if ls == [] {
      assert Embeds([], ls, Unlabel(LeftMergeRows(ls, right, DominantTopic, TopicId)));
    } else {
      assert ls[0] in ls;
      var first := JoinRow(ls[0], right, DominantTopic, TopicId);
      var restOut := LeftMergeRows(ls[1..], right, DominantTopic, TopicId);
      MergeKeepsRows(ls[1..], right);
      JoinKeepsRow(ls[0], right);
      UnlabelAppend(first, restOut);
      PrependSubsequence(ls[0], ls[1..], Unlabel(first), Unlabel(restOut));
      assert [ls[0]] + ls[1..] == ls;
    }
  }

  /** The first row a left row joins to is that row plus right-hand cells. */
  lemma JoinKeepsRow(l: Row, right: Frame)
    requires DominantTopic in l
    requires TopicId !in l && ConsumerType !in l && ConsumerScene !in l
    requires ColumnSet(right.columns) == {TopicId, ConsumerType, ConsumerScene}
    requires forall r :: r in right.rows ==> r.Keys == ColumnSet(right.columns)
    ensures Unlabel(JoinRow(l, right, DominantTopic, TopicId))[0] == l
  {
    var ms := MatchingRows(right.rows, TopicId, l[DominantTopic]);
    var out := JoinRow(l, right, DominantTopic, TopicId);
    var drop := {TopicId, ConsumerType, ConsumerScene};
    var extra := if ms == [] then NullRow(right.columns) else ms[0];
    if ms != [] {
      assert ms[0] in ms;
    }
    assert extra.Keys == drop;
    assert out[0] == l + extra;
    assert (l + extra) - drop == l;
  }

  lemma UnlabelAppend(a: seq<Row>, b: seq<Row>)
    ensures Unlabel(a + b) == Unlabel(a) + Unlabel(b)
  {
  }

  // ---------------------------------------------------------------------
  // merge_scene_labels
  // ---------------------------------------------------------------------

  /** The restaurant table and the topic table the merge can be run on: both
      well formed, the topic table holding the three label columns, the
      restaurant table holding `dominant_topic` and none of the label columns. */
  predicate Mergeable(topics: Frame, restaurants: Frame)
  {
    && WellFormed(topics) && WellFormed(restaurants)
    && TopicId in topics.columns && ConsumerType in topics.columns && ConsumerScene in topics.columns
    && DominantTopic in restaurants.columns
    && TopicId !in restaurants.columns
    && ConsumerType !in restaurants.columns && ConsumerScene !in restaurants.columns
  }

  /** The table the successful path writes back: well formed, with the
      restaurant columns followed by the two label columns. */
  function Merged(topics: Frame, restaurants: Frame): (merged: Frame)
    requires Mergeable(topics, restaurants)
    ensures WellFormed(merged)
    ensures merged.columns == restaurants.columns + [ConsumerType, ConsumerScene]
  {
    var labels := Select(FillMissing(topics, ConsumerType, TopicId), [TopicId, ConsumerType, ConsumerScene]);
    TopicIdDropped(restaurants.columns, c => c != TopicId);
    DropColumn(LeftMerge(restaurants, labels, DominantTopic, TopicId), TopicId)
  }

  /** Dropping `topic_id` from the merged column list leaves the restaurant
      columns and the two label columns. */
  lemma TopicIdDropped(columns: seq<string>, keep: string -> bool)
    requires TopicId !in columns
    requires forall c :: keep(c) == (c != TopicId)
    ensures Filter(columns + [TopicId, ConsumerType, ConsumerScene], keep) == columns + [ConsumerType, ConsumerScene]
  {
    FilterAppend(columns, [TopicId, ConsumerType, ConsumerScene], keep);
    assert Filter(columns, keep) == columns;
    LabelColumnsKept(keep);
  }

  lemma LabelColumnsKept(keep: string -> bool)
    requires forall c :: keep(c) == (c != TopicId)
    ensures Filter([TopicId, ConsumerType, ConsumerScene], keep) == [ConsumerType, ConsumerScene]
  {
    assert !keep(TopicId) && keep(ConsumerType) && keep(ConsumerScene);
    assert [TopicId, ConsumerType, ConsumerScene][1..] == [ConsumerType, ConsumerScene];
    assert [ConsumerType, ConsumerScene][1..] == [ConsumerScene];
    assert [ConsumerScene][1..] == [];
  }

  /** Every restaurant row survives the merge, in order. */
  lemma MergedKeepsRows(topics: Frame, restaurants: Frame)
    requires Mergeable(topics, restaurants)
    ensures |Merged(topics, restaurants).rows| >= |restaurants.rows|
    ensures IsSubsequence(restaurants.rows, Unlabel(Merged(topics, restaurants).rows))
  {
    var labels := Select(FillMissing(topics, ConsumerType, TopicId), [TopicId, ConsumerType, ConsumerScene]);
    assert ColumnSet(labels.columns) == {TopicId, ConsumerType, ConsumerScene};
    DropKeepsRows(restaurants, labels);
  }

  lemma DropKeepsRows(restaurants: Frame, labels: Frame)
    requires WellFormed(restaurants) && WellFormed(labels)
    requires DominantTopic in restaurants.columns && TopicId !in restaurants.columns
    requires ConsumerType !in restaurants.columns && ConsumerScene !in restaurants.columns
    requires labels.columns == [TopicId, ConsumerType, ConsumerScene]
    requires ColumnSet(labels.columns) == {TopicId, ConsumerType, ConsumerScene}
    ensures IsSubsequence(restaurants.rows,
      Unlabel(DropColumn(LeftMerge(restaurants, labels, DominantTopic, TopicId), TopicId).rows))
  {
    RestaurantRows(restaurants);
    MergeKeepsRows(restaurants.rows, labels);
    UnlabelDropped(LeftMerge(restaurants, labels, DominantTopic, TopicId));
  }

  /** Dropping `topic_id` leaves the restaurant cells of every row alone. */
  lemma UnlabelDropped(f: Frame)
    requires WellFormed(f)
    ensures Unlabel(DropColumn(f, TopicId).rows) == Unlabel(f.rows)
  {
    var g := DropColumn(f, TopicId);
    forall i | 0 <= i < |f.rows| ensures Unlabel(g.rows)[i] == Unlabel(f.rows)[i] {
      var r := f.rows[i];
      assert (r - {TopicId}) - {TopicId, ConsumerType, ConsumerScene} == r - {TopicId, ConsumerType, ConsumerScene};
    }
  }

  /** With unique topic ids every restaurant row gets the labels of its
      dominant topic, or missing labels when no topic has that id. */
  lemma MergedLabels(topics: Frame, restaurants: Frame)
    requires Mergeable(topics, restaurants)
    requires HasLabelColumns(topics.rows) && UniqueTopicIds(topics.rows)
    ensures forall l :: l in restaurants.rows ==> DominantTopic in l
    ensures |Merged(topics, restaurants).rows| == |restaurants.rows|
    ensures forall i :: 0 <= i < |restaurants.rows| ==>
      Merged(topics, restaurants).rows[i] == Labelled(restaurants.rows[i], topics.rows)
  {
    var labels := Select(FillMissing(topics, ConsumerType, TopicId), [TopicId, ConsumerType, ConsumerScene]);
    assert labels == LabelFrame(topics) by {
      SelectedLabels(topics);
    }
    RestaurantRows(restaurants);
    DroppedRows(LeftMerge(restaurants, labels, DominantTopic, TopicId));
    MergeUnique(restaurants.rows, topics);
  }

  /** Dropping `topic_id` from a table drops it from every row. */
  lemma DroppedRows(f: Frame)
    requires WellFormed(f)
    ensures DropColumn(f, TopicId).rows == DropTopicIds(f.rows)
  {
  }

  lemma RestaurantRows(restaurants: Frame)
    requires WellFormed(restaurants)
    requires DominantTopic in restaurants.columns && TopicId !in restaurants.columns
    requires ConsumerType !in restaurants.columns && ConsumerScene !in restaurants.columns
    ensures forall l :: l in restaurants.rows ==>
      DominantTopic in l && TopicId !in l && ConsumerType !in l && ConsumerScene !in l
  {
    forall l | l in restaurants.rows
      ensures DominantTopic in l && TopicId !in l && ConsumerType !in l && ConsumerScene !in l
    {
      assert l.Keys == ColumnSet(restaurants.columns);
    }
  }

  /** The label-column check, the `consumer_type` default, the left merge on
      `dominant_topic = topic_id` and the drop of `topic_id`, step by step. */
  method MergeSceneLabels(topics: Frame, restaurants: Frame) returns (result: Result<Frame>)
    requires WellFormed(topics) && WellFormed(restaurants)
    requires TopicId !in restaurants.columns
    requires ConsumerType !in restaurants.columns && ConsumerScene !in restaurants.columns
    ensures ConsumerType !in topics.columns || ConsumerScene !in topics.columns <==>
      result == Err(MissingLabelColumns)
    ensures result.Ok? <==> Mergeable(topics, restaurants)
    ensures result.Err? && result.error != MissingLabelColumns ==>
      result.error == (if TopicId !in topics.columns then MissingColumn(TopicId) else MissingColumn(DominantTopic))
    ensures result.Ok? ==> result.value == Merged(topics, restaurants)
  {
    if ConsumerType !in topics.columns || ConsumerScene !in topics.columns {
      return Err(MissingLabelColumns);
    }
    if TopicId !in topics.columns {
      return Err(MissingColumn(TopicId));
    }
    var labelled := FillMissing(topics, ConsumerType, TopicId);
    if DominantTopic !in restaurants.columns {
      return Err(MissingColumn(DominantTopic));
    }
    var labels := Select(labelled, [TopicId, ConsumerType, ConsumerScene]);
    var merged := LeftMerge(restaurants, labels, DominantTopic, TopicId);
    merged := DropColumn(merged, TopicId);
    result := Ok(merged);
  }
}
