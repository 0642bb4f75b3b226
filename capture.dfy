/** Building a wall record from the end-screen tiles, and `captureWall`:
    build, put, then sweep. The DOM is abstracted: each tile is what the
    code reads from it. */
module Capture {
  import opened Wrappers
  import opened Timestamps
  import opened KeyOrder
  import opened WallStore
  import Render

  /** What is read from one `.ytp-videowall-still` element: its `href`, its
      `ariaLabel`, the `innerText` of its duration child, and the `top` of
      its bounding box (in whole pixels). `None` stands for `null` or
      `undefined`. */
  datatype Element = Element(href: Option<string>, ariaLabel: Option<string>,
                             duration: Option<string>, top: int)

  const WatchPrefix: string := "Watch "

  /** Columns assumed when the first tile has no bounding box. */
  const DefaultCaptureColumns: nat := 4

  /** Two tiles are in the same row when their tops differ by less than this. */
  const RowTolerance: int := 5

  /** `x || ""` for a string that may be absent (an empty string stays empty):
      the `v` parameter, the tile's `href` and its duration text all default
      this way. */
  function OrEmpty(x: Option<string>): (s: string)
    ensures x.Some? ==> s == x.value
    ensures x.None? ==> s == ""
  {
    x.GetOr("")
  }

  predicate HasWatchPrefix(text: string) {
    |text| >= |WatchPrefix| && text[..|WatchPrefix|] == WatchPrefix
  }

  /** A leading "Watch " removed once, if present. */
  function StripWatch(text: string): (t: string)
    ensures HasWatchPrefix(text) ==> WatchPrefix + t == text
    ensures !HasWatchPrefix(text) ==> t == text
  {
    if HasWatchPrefix(text) then text[|WatchPrefix|..] else text
  }

  /** The tile's title: its aria label without one leading "Watch ", or `""`. */
  function TitleOf(ariaLabel: Option<string>): (t: string)
    ensures ariaLabel.None? ==> t == ""
    ensures ariaLabel.Some? && HasWatchPrefix(ariaLabel.value) ==> WatchPrefix + t == ariaLabel.value
    ensures ariaLabel.Some? && !HasWatchPrefix(ariaLabel.value) ==> t == ariaLabel.value
  {
    match ariaLabel
    case None => ""
    case Some(text) => StripWatch(text)
  }

  /** The record's `{link, title, length}` for one tile. */
  function ItemOf(e: Element): (item: Item)
    ensures item.link == (if e.href.Some? then e.href.value else "")
    ensures item.title == TitleOf(e.ariaLabel)
    ensures item.length == (if e.duration.Some? then e.duration.value else "")
  {
    Item(OrEmpty(e.href), TitleOf(e.ariaLabel), OrEmpty(e.duration))
  }

  /** `Array.from(wallItems).map(...)`: one item per tile, in tile order. */
  function ItemsOf(els: seq<Element>): (items: seq<Item>)
    ensures |items| == |els|
    ensures forall i :: 0 <= i < |els| ==> items[i] == ItemOf(els[i])
  {
    if els == [] then [] else [ItemOf(els[0])] + ItemsOf(els[1..])
  }

  /** `Math.abs(t - first) < 5`: a tile whose top is `t` is level with the
      first tile, whose top is `first`. */
  predicate Level(t: int, first: int) {
    -RowTolerance < t - first < RowTolerance
  }

  /** The positions of the tops that are level with `first`. */
  ghost function LevelIndices(tops: seq<int>, first: int): set<int> {
    set i | 0 <= i < |tops| && Level(tops[i], first)
  }

  /** `rowTops.filter(t => Math.abs(t - firstRowTop) < 5).length`. */
  function CountInRow(tops: seq<int>, first: int): (n: nat)
    ensures n == |LevelIndices(tops, first)|
    ensures n <= |tops|
    ensures (exists i :: 0 <= i < |tops| && Level(tops[i], first)) ==> n >= 1
  {
    if tops == [] then
      assert LevelIndices(tops, first) == {};
      0
    else
      var init := tops[..|tops| - 1];
      LevelIndicesStep(tops, first);
      CountInRow(init, first) + (if Level(tops[|tops| - 1], first) then 1 else 0)
  }

  /** The level positions of `tops` are those of all but its last top, and
      the last position when the last top is level. */
  lemma LevelIndicesStep(tops: seq<int>, first: int)
    requires tops != []
    ensures var last := |tops| - 1;
      |LevelIndices(tops, first)| == |LevelIndices(tops[..last], first)| + (if Level(tops[last], first) then 1 else 0)
  {
    var last := |tops| - 1;
    var init := LevelIndices(tops[..last], first);
    if Level(tops[last], first) {
      assert LevelIndices(tops, first) == init + {last};
      assert last !in init;
    } else {
      assert LevelIndices(tops, first) == init;
    }
  }

  function Tops(els: seq<Element>): (tops: seq<int>)
    ensures |tops| == |els|
    ensures forall i :: 0 <= i < |els| ==> tops[i] == els[i].top
  {
    if els == [] then [] else [els[0].top] + Tops(els[1..])
  }

  /** The positions of the tiles level with the first tile: the level
      positions of the tiles' tops. */
  ghost function LevelTiles(els: seq<Element>): set<int>
    requires els != []
  {
    LevelIndices(Tops(els), els[0].top)
  }

  /** The column count: the number of tiles level with the first tile (4
      when there is no first tile). */
  function InferColCount(els: seq<Element>): (c: nat)
    ensures els == [] ==> c == DefaultCaptureColumns
    ensures els != [] ==> c == |LevelTiles(els)| && 1 <= c <= |els|
  {
    if els == [] then DefaultCaptureColumns
    else
      var tops := Tops(els);
      assert Level(tops[0], tops[0]);
      CountInRow(tops, tops[0])
  }

  /** The record `captureWall` saves for tiles `els` seen at instant `now`
      on a page whose `v` parameter is `v`. */
  function BuildWall(now: int, v: Option<string>, els: seq<Element>): (w: Wall)
    ensures w.timestamp == Normalize(now)
    ensures |w.items| == |els|
    ensures els != [] ==> w.colCount == |LevelTiles(els)|
  {
    Wall(Normalize(now), OrEmpty(v), InferColCount(els), ItemsOf(els))
  }

  /** The title drops exactly one leading "Watch ". */
  lemma TitleStripsOnePrefix(t: string)
    ensures TitleOf(Some(WatchPrefix + t)) == t
  {
    assert (WatchPrefix + t)[..|WatchPrefix|] == WatchPrefix;
    assert (WatchPrefix + t)[|WatchPrefix|..] == t;
  }

  /** A label without the prefix is kept as it is; a missing label gives "". */
  lemma TitleKeepsOtherLabels(text: string)
    requires !HasWatchPrefix(text)
    ensures TitleOf(Some(text)) == text
    ensures TitleOf(None) == ""
  {
  }

  /** The title is never longer than the label. */
  lemma TitleNoLonger(text: string)
    ensures |TitleOf(Some(text))| <= |text|
  {
  }

  /** The saved record: key from the capture instant and the `v` parameter
      (`""` when absent), one item per tile in tile order, link and length
      defaulting to `""`, and as many columns as tiles level with the first. */
  lemma BuildWallShape(now: int, v: Option<string>, els: seq<Element>)
    requires els != []
    ensures var w := BuildWall(now, v, els);
      && KeyOf(w) == (Normalize(now), if v.Some? then v.value else "")
      && w.colCount == |LevelTiles(els)| && 1 <= w.colCount <= |els|
      && |w.items| == |els|
      && forall i :: 0 <= i < |els| ==>
           && w.items[i].link == (if els[i].href.Some? then els[i].href.value else "")
           && w.items[i].title == TitleOf(els[i].ariaLabel)
           && w.items[i].length == (if els[i].duration.Some? then els[i].duration.value else "")
  {
  }

  /** Two captures after the same video within one bucket share a key: the
      store then holds only the later one. */
  lemma RecaptureInSameBucketOverwrites(m: map<Key, Wall>, t1: int, t2: int, v: Option<string>,
                                        els1: seq<Element>, els2: seq<Element>)
    requires Normalize(t1) == Normalize(t2)
    ensures Put(Put(m, BuildWall(t1, v, els1)), BuildWall(t2, v, els2)) == Put(m, BuildWall(t2, v, els2))
  {
    PutOverwrites(m, BuildWall(t1, v, els1), BuildWall(t2, v, els2));
  }

  /** A freshly captured wall survives the sweep that follows it as long as
      the sweep runs less than the retention window after the capture. */
  lemma CapturedWallSurvives(m: map<Key, Wall>, w: Wall, captureNow: int, sweepNow: int)
    requires w.timestamp == Normalize(captureNow)
    requires sweepNow - RetentionMillis <= captureNow
    ensures KeyOf(w) in Sweep(Put(m, w), Cutoff(sweepNow))
    ensures Sweep(Put(m, w), Cutoff(sweepNow))[KeyOf(w)] == w
  {
    NormalizeMonotone(sweepNow - RetentionMillis, captureNow);
  }

  /** A tile without `href` is stored with link `""`, so the overlay can
      never show that wall's record: the layout throws at it. */
  lemma TileWithoutHrefIsNotShown(now: int, v: Option<string>, els: seq<Element>, i: nat)
    requires i < |els| && els[i].href.None?
    ensures !Render.Linked(BuildWall(now, v, els).items)
  {
    var items := BuildWall(now, v, els).items;
    assert items[i] == ItemOf(els[i]);
    assert items[i].link == "";
  }

  /** `captureWall`: with no tiles nothing happens; otherwise the record is
      put and, once the put has succeeded, the store is swept. Neither can
      happen when the writer cannot reach the object store. The two
      instants are the two readings of the clock, at capture and at sweep. */
  method CaptureWall(store: Store, captureNow: int, sweepNow: int, v: Option<string>, els: seq<Element>)
    requires store.Valid()
    modifies store
    ensures store.Valid()
    ensures els == [] ==> store.walls == old(store.walls) && store.version == old(store.version)
    ensures els != [] && Writable(old(store.version), old(store.hasStore)) ==>
      store.walls == Sweep(Put(AfterOpen(old(store.version), old(store.walls)), BuildWall(captureNow, v, els)), Cutoff(sweepNow))
    ensures !Writable(old(store.version), old(store.hasStore)) ==> store.walls == old(store.walls)
    ensures store.version == if els != [] then OpenedVersion(old(store.version)) else old(store.version)
    ensures store.hasStore == if els != [] && old(store.version) < SchemaVersion then true else old(store.hasStore)
  {
    if |els| == 0 {
      return;
    }
    var data := BuildWall(captureNow, v, els);
    var saved := store.SaveWall(data);
    if saved {
      var swept, visited := store.Cleanup(sweepNow);
    }
  }
}
