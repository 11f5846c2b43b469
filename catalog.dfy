/**
 * The format catalogue of `YouTubeDownloader.get_available_formats`
 * (ytb1.py): the extractor's format list is reduced to one video format per
 * height, the largest by file size, and the heights are ranked highest first.
 */
module Catalog {
  import opened Wrappers

  /**
   * A format's height as `f.get('height', 'unknown')` returns it: a number,
   * the default 'unknown' when the key is absent, or `None` when the key is
   * present without a value. The three are distinct dictionary keys.
   */
  datatype Height = Px(px: int) | Absent | Null

  /** One entry of the extractor's `formats` list, reduced to the keys the bot reads. */
  datatype Format = Format(height: Height, vcodec: Option<string>, filesize: Option<nat>)

  /** `f.get('vcodec') != 'none'`: a missing codec counts as video. */
  predicate IsVideo(f: Format) {
    f.vcodec != Some("none")
  }

  /** `f.get('filesize', 0) or 0`. */
  function Size(f: Format): nat {
    match f.filesize
    case None => 0
    case Some(n) => n
  }

  /** The sort key: the height when it is an int, 0 otherwise. */
  function RankKey(h: Height): int {
    match h
    case Px(n) => n
    case _ => 0
  }

  predicate Distinct<T(==)>(s: seq<T>) {
    forall i, j :: 0 <= i < j < |s| ==> s[i] != s[j]
  }

  // ---------------------------------------------------------------------------
  // The reduction loop (ytb1.py lines 37-45)

  /**
   * The `unique_resolutions` dictionary: its keys in insertion order, which a
   * Python dict remembers, and the format kept for each key.
   */
  datatype Reduction = Reduction(order: seq<Height>, kept: map<Height, Format>)

  /** One iteration of the loop. */
  function Step(r: Reduction, f: Format): Reduction {
    if !IsVideo(f) then r
    else if f.height !in r.kept then Reduction(r.order + [f.height], r.kept[f.height := f])
    else if Size(f) > Size(r.kept[f.height]) then Reduction(r.order, r.kept[f.height := f])
    else r
  }

  /** The dictionary after the loop has seen all of `fs`. */
  function Reduce(fs: seq<Format>): Reduction {
    if fs == [] then Reduction([], map[]) else Step(Reduce(fs[..|fs| - 1]), fs[|fs| - 1])
  }

  /** The heights of the video formats in `fs`. */
  ghost function VideoHeights(fs: seq<Format>): set<Height> {
    set j | 0 <= j < |fs| && IsVideo(fs[j]) :: fs[j].height
  }

  /** Whether `fs[j]` is a video format of height `h`. */
  predicate IsVideoOf(fs: seq<Format>, j: int, h: Height)
    requires 0 <= j < |fs|
  {
    IsVideo(fs[j]) && fs[j].height == h
  }

  /**
   * `fs[j]` is the first of the largest video formats of its height: every
   * earlier one of that height is strictly smaller, no later one is larger.
   */
  ghost predicate FirstLargest(fs: seq<Format>, j: int)
    requires 0 <= j < |fs|
  {
    && IsVideo(fs[j])
    && (forall i :: 0 <= i < j && IsVideoOf(fs, i, fs[j].height) ==> Size(fs[i]) < Size(fs[j]))
    && (forall i :: j < i < |fs| && IsVideoOf(fs, i, fs[j].height) ==> Size(fs[i]) <= Size(fs[j]))
  }

  /** The first position of a video format of height `h`. */
  ghost function FirstIndex(fs: seq<Format>, h: Height): (w: nat)
    requires h in VideoHeights(fs)
    ensures w < |fs| && IsVideoOf(fs, w, h)
    ensures forall j :: 0 <= j < w ==> !IsVideoOf(fs, j, h)
  {
    var j :| 0 <= j < |fs| && IsVideo(fs[j]) && fs[j].height == h;
    if IsVideoOf(fs, 0, h) then 0
    else
      assert fs[1..][j - 1] == fs[j];
      assert forall i :: 1 <= i < |fs| ==> (IsVideoOf(fs[1..], i - 1, h) <==> IsVideoOf(fs, i, h));
      1 + FirstIndex(fs[1..], h)
  }

  lemma FirstIndexIs(fs: seq<Format>, h: Height, w: nat)
    requires w < |fs| && IsVideoOf(fs, w, h)
    requires forall j :: 0 <= j < w ==> !IsVideoOf(fs, j, h)
    ensures h in VideoHeights(fs) && FirstIndex(fs, h) == w
  {
  }

  lemma VideoHeightsSnoc(fs: seq<Format>)
    requires fs != []
    ensures var n := |fs| - 1;
      VideoHeights(fs) == VideoHeights(fs[..n]) + (if IsVideo(fs[n]) then {fs[n].height} else {})
  {
    var n := |fs| - 1;
    var pre := fs[..n];
    forall h | h in VideoHeights(fs)
      ensures h in VideoHeights(pre) || (IsVideo(fs[n]) && h == fs[n].height)
    {
      var j :| 0 <= j < |fs| && IsVideo(fs[j]) && fs[j].height == h;
      if j < n {
        assert pre[j] == fs[j];
      }
    }
    forall h | h in VideoHeights(pre)
      ensures h in VideoHeights(fs)
    {
      var j :| 0 <= j < |pre| && IsVideo(pre[j]) && pre[j].height == h;
      assert fs[j] == pre[j];
    }
  }

  /**
   * The dictionary's keys are exactly the heights of the video formats, each
   * once, in the remembered order.
   */
  lemma {:induction false} ReduceKeys(fs: seq<Format>)
    ensures Distinct(Reduce(fs).order)
    ensures forall h :: h in Reduce(fs).order <==> h in Reduce(fs).kept
    ensures Reduce(fs).kept.Keys == VideoHeights(fs)
  {
    if fs != [] {
      ReduceKeys(fs[..|fs| - 1]);
      VideoHeightsSnoc(fs);
    }
  }

  /**
   * Every kept format is a video format of `fs` under its own height, and no
   * video format of that height has a larger size.
   */
  lemma {:induction false} ReduceLargest(fs: seq<Format>)
    ensures forall h :: h in Reduce(fs).kept ==>
      var f := Reduce(fs).kept[h]; f in fs && IsVideo(f) && f.height == h
    ensures forall j :: 0 <= j < |fs| && IsVideo(fs[j]) ==>
      fs[j].height in Reduce(fs).kept && Size(fs[j]) <= Size(Reduce(fs).kept[fs[j].height])
  {
    if fs != [] {
      var n := |fs| - 1;
      var pre := fs[..n];
      ReduceLargest(pre);
      forall j | 0 <= j < n
        ensures fs[j] == pre[j]
      {
      }
      assert fs == pre + [fs[n]];
    }
  }

  /**
   * Ties keep the first: the format kept for a height is the first of the
   * largest video formats of that height.
   */
  lemma {:induction false} ReduceFirstLargest(fs: seq<Format>)
    ensures forall j :: 0 <= j < |fs| && FirstLargest(fs, j) ==>
      fs[j].height in Reduce(fs).kept && Reduce(fs).kept[fs[j].height] == fs[j]
  {
    if fs != [] {
      var n := |fs| - 1;
      var pre := fs[..n];
      ReduceFirstLargest(pre);
      forall j | 0 <= j < |fs| && FirstLargest(fs, j)
        ensures fs[j].height in Reduce(fs).kept && Reduce(fs).kept[fs[j].height] == fs[j]
      {
        if j < n {
          FirstLargestOfPrefix(fs, j);
          EarlierFirstLargestKept(fs, j);
        } else {
          LastFirstLargestKept(fs);
        }
      }
    }
  }

  /** A format kept before the last one is seen stays kept when the last one is no larger. */
  lemma EarlierFirstLargestKept(fs: seq<Format>, j: int)
    requires 0 <= j < |fs| - 1 && FirstLargest(fs, j)
    requires var before := Reduce(fs[..|fs| - 1]);
      fs[j].height in before.kept && before.kept[fs[j].height] == fs[j]
    ensures fs[j].height in Reduce(fs).kept && Reduce(fs).kept[fs[j].height] == fs[j]
  {
    var f := fs[|fs| - 1];
    if IsVideo(f) && f.height == fs[j].height {
      assert IsVideoOf(fs, |fs| - 1, fs[j].height);
    }
  }

  /** The last format, when it is the first of the largest of its height, is the one kept. */
  lemma LastFirstLargestKept(fs: seq<Format>)
    requires fs != [] && FirstLargest(fs, |fs| - 1)
    ensures var f := fs[|fs| - 1]; f.height in Reduce(fs).kept && Reduce(fs).kept[f.height] == f
  {
    var n := |fs| - 1;
    var pre := fs[..n];
    var h := fs[n].height;
    var before := Reduce(pre);
    ReduceLargest(pre);
    if h in before.kept {
      var g := before.kept[h];
      assert g in pre;
      var i :| 0 <= i < |pre| && pre[i] == g;
      assert fs[i] == g;
      assert IsVideoOf(fs, i, h);
    }
  }

  /** Dropping a later format keeps the first of the largest formats so. */
  lemma FirstLargestOfPrefix(fs: seq<Format>, j: int)
    requires 0 <= j < |fs| - 1 && FirstLargest(fs, j)
    ensures fs[..|fs| - 1][j] == fs[j] && FirstLargest(fs[..|fs| - 1], j)
  {
    var pre := fs[..|fs| - 1];
    forall i | 0 <= i < |pre| && IsVideoOf(pre, i, fs[j].height)
      ensures IsVideoOf(fs, i, fs[j].height)
    {
      assert pre[i] == fs[i];
    }
  }

  /** A height that occurs before the last format is first found where it is first found without it. */
  lemma FirstIndexOfPrefix(fs: seq<Format>, g: Height)
    requires fs != [] && g in VideoHeights(fs[..|fs| - 1])
    ensures g in VideoHeights(fs) && FirstIndex(fs, g) == FirstIndex(fs[..|fs| - 1], g)
  {
    var pre := fs[..|fs| - 1];
    var w := FirstIndex(pre, g);
    assert fs[w] == pre[w];
    forall j | 0 <= j < w
      ensures !IsVideoOf(fs, j, g)
    {
      assert fs[j] == pre[j];
      assert !IsVideoOf(pre, j, g);
    }
    FirstIndexIs(fs, g, w);
  }

  /** The remembered order is the order in which each height first appears. */
  lemma {:induction false} ReduceFirstSeen(fs: seq<Format>)
    ensures forall p :: 0 <= p < |Reduce(fs).order| ==> Reduce(fs).order[p] in VideoHeights(fs)
    ensures forall p, q :: 0 <= p < q < |Reduce(fs).order| ==>
      FirstIndex(fs, Reduce(fs).order[p]) < FirstIndex(fs, Reduce(fs).order[q])
  {
    ReduceKeys(fs);
    if fs != [] {
      var n := |fs| - 1;
      var pre := fs[..n];
      var f := fs[n];
      ReduceFirstSeen(pre);
      ReduceKeys(pre);
      VideoHeightsSnoc(fs);
      var before := Reduce(pre).order;
      forall g | g in VideoHeights(pre)
        ensures FirstIndex(fs, g) == FirstIndex(pre, g)
      {
        FirstIndexOfPrefix(fs, g);
      }
      if IsVideo(f) && f.height !in Reduce(pre).kept {
        forall j | 0 <= j < n
          ensures !IsVideoOf(fs, j, f.height)
        {
          assert fs[j] == pre[j];
        }
        FirstIndexIs(fs, f.height, n);
        assert Reduce(fs).order == before + [f.height];
      } else {
        assert Reduce(fs).order == before;
      }
    }
  }

  /**
   * The loop of `get_available_formats`: walks the formats once and keeps,
   * per height, the video format with the largest size.
   */
  method ReduceFormats(formats: seq<Format>) returns (order: seq<Height>, kept: map<Height, Format>)
    ensures Reduction(order, kept) == Reduce(formats)
  {
    order, kept := [], map[];
    for i := 0 to |formats|
      invariant Reduction(order, kept) == Reduce(formats[..i])
    {
      assert formats[..i + 1][..i] == formats[..i];
      var f := formats[i];
      if f.vcodec != Some("none") {
        var res := f.height;
        var currentSize := Size(f);
        var existingSize := if res in kept then Size(kept[res]) else 0;
        if res !in kept || currentSize > existingSize {
          if res !in kept {
            order := order + [res];
          }
          kept := kept[res := f];
        }
      }
    }
    assert formats[..|formats|] == formats;
  }

  // ---------------------------------------------------------------------------
  // Ranking (ytb1.py lines 48-52): sorted(..., key=..., reverse=True), which is stable

  /** Places `x` before the first element whose key is not larger than its own. */
  function Insert(x: Height, t: seq<Height>): (r: seq<Height>)
    ensures multiset(r) == multiset(t) + multiset{x}
  {
    if t == [] || RankKey(t[0]) <= RankKey(x) then [x] + t
    else
      assert t == [t[0]] + t[1..];
      [t[0]] + Insert(x, t[1..])
  }

  ghost predicate SortedDesc(s: seq<Height>) {
    forall i, j :: 0 <= i < j < |s| ==> RankKey(s[i]) >= RankKey(s[j])
  }

  /** Stable insertion sort, largest key first. */
  function SortDesc(s: seq<Height>): (r: seq<Height>)
    ensures multiset(r) == multiset(s)
  {
    if s == [] then []
    else
      assert s == [s[0]] + s[1..];
      Insert(s[0], SortDesc(s[1..]))
  }

  lemma {:induction false} InsertSorted(x: Height, t: seq<Height>)
    requires SortedDesc(t)
    ensures SortedDesc(Insert(x, t))
  {
    if t != [] && RankKey(t[0]) > RankKey(x) {
      InsertSorted(x, t[1..]);
      var r := Insert(x, t[1..]);
      forall k | 0 <= k < |r|
        ensures RankKey(r[k]) <= RankKey(t[0])
      {
        assert r[k] in multiset(r);
        if r[k] != x {
          assert r[k] in multiset(t[1..]);
        }
      }
    }
  }

  lemma {:induction false} SortDescSorted(s: seq<Height>)
    ensures SortedDesc(SortDesc(s))
  {
    if s != [] {
      SortDescSorted(s[1..]);
      InsertSorted(s[0], SortDesc(s[1..]));
    }
  }

  /** Among elements with equal keys, `rank` increases along `s`. */
  ghost predicate StableBy(s: seq<Height>, rank: Height -> int) {
    forall i, j :: 0 <= i < j < |s| && RankKey(s[i]) == RankKey(s[j]) ==> rank(s[i]) < rank(s[j])
  }

  lemma {:induction false} InsertStable(x: Height, t: seq<Height>, rank: Height -> int)
    requires StableBy(t, rank)
    requires forall k :: 0 <= k < |t| ==> rank(x) < rank(t[k])
    ensures StableBy(Insert(x, t), rank)
  {
    if t != [] && RankKey(t[0]) > RankKey(x) {
      var tail := t[1..];
      assert StableBy(tail, rank) by {
        forall i, j | 0 <= i < j < |tail| && RankKey(tail[i]) == RankKey(tail[j])
          ensures rank(tail[i]) < rank(tail[j])
        {
          assert tail[i] == t[i + 1] && tail[j] == t[j + 1];
        }
      }
      InsertStable(x, tail, rank);
      var r := Insert(x, tail);
      var full := [t[0]] + r;
      assert Insert(x, t) == full;
      forall i, j | 0 <= i < j < |full| && RankKey(full[i]) == RankKey(full[j])
        ensures rank(full[i]) < rank(full[j])
      {
        if i == 0 {
          assert full[j] == r[j - 1] && full[j] in multiset(r);
          InsertStableHead(x, t, rank, full[j]);
        } else {
          assert full[i] == r[i - 1] && full[j] == r[j - 1];
        }
      }
    } else {
      var full := [x] + t;
      assert Insert(x, t) == full;
      forall i, j | 0 <= i < j < |full| && RankKey(full[i]) == RankKey(full[j])
        ensures rank(full[i]) < rank(full[j])
      {
        assert full[j] == t[j - 1];
        if i > 0 {
          assert full[i] == t[i - 1];
        }
      }
    }
  }

  /** The element kept in front by `Insert` ranks before every equal-key element behind it. */
  lemma InsertStableHead(x: Height, t: seq<Height>, rank: Height -> int, y: Height)
    requires t != [] && RankKey(t[0]) > RankKey(x) && StableBy(t, rank)
    requires y in multiset(Insert(x, t[1..])) && RankKey(y) == RankKey(t[0])
    ensures rank(t[0]) < rank(y)
  {
    if y != x {
      assert y in multiset(t[1..]);
      var k :| 0 <= k < |t[1..]| && t[1..][k] == y;
      assert t[k + 1] == y;
    }
  }

  /** The sort is stable: if `rank` increases along `s`, it increases among equal keys of the result. */
  lemma {:induction false} SortDescStable(s: seq<Height>, rank: Height -> int)
    requires forall i, j :: 0 <= i < j < |s| ==> rank(s[i]) < rank(s[j])
    ensures StableBy(SortDesc(s), rank)
  {
    if s != [] {
      SortDescStable(s[1..], rank);
      SortDescSorted(s[1..]);
      var t := SortDesc(s[1..]);
      forall k | 0 <= k < |t|
        ensures rank(s[0]) < rank(t[k])
      {
        assert t[k] in multiset(s[1..]);
        var m :| 0 <= m < |s[1..]| && s[1..][m] == t[k];
        assert s[m + 1] == t[k];
      }
      InsertStable(s[0], t, rank);
    }
  }

  lemma {:induction false} SortDescDistinct(s: seq<Height>)
    requires Distinct(s)
    ensures Distinct(SortDesc(s))
  {
    if s != [] {
      SortDescDistinct(s[1..]);
      assert s[0] !in multiset(s[1..]);
      InsertDistinct(s[0], SortDesc(s[1..]));
    }
  }

  lemma {:induction false} InsertDistinct(x: Height, t: seq<Height>)
    requires Distinct(t) && x !in multiset(t)
    ensures Distinct(Insert(x, t))
  {
    if t != [] && RankKey(t[0]) > RankKey(x) {
      InsertDistinct(x, t[1..]);
      var r := Insert(x, t[1..]);
      assert t[0] !in multiset(t[1..]);
      assert t[0] != x;
      assert t[0] !in multiset(r);
      forall k | 0 <= k < |r|
        ensures r[k] != t[0]
      {
        assert r[k] in multiset(r);
      }
    } else {
      forall k | 0 <= k < |t|
        ensures t[k] != x
      {
        assert t[k] in multiset(t);
      }
    }
  }

  // ---------------------------------------------------------------------------
  // The resulting menu of formats

  /** One item of the returned dictionary: a height and the format kept for it. */
  datatype Entry = Entry(height: Height, format: Format)

  function Heights(entries: seq<Entry>): (hs: seq<Height>)
    ensures |hs| == |entries|
    ensures forall k :: 0 <= k < |entries| ==> hs[k] == entries[k].height
  {
    seq(|entries|, k requires 0 <= k < |entries| => entries[k].height)
  }

  lemma RankedHeightsKept(fs: seq<Format>)
    ensures forall k :: 0 <= k < |SortDesc(Reduce(fs).order)| ==> SortDesc(Reduce(fs).order)[k] in Reduce(fs).kept
  {
    ReduceKeys(fs);
    var hs := SortDesc(Reduce(fs).order);
    forall k | 0 <= k < |hs|
      ensures hs[k] in Reduce(fs).kept
    {
      assert hs[k] in multiset(hs);
    }
  }

  /** `list(get_available_formats(info).items())`. */
  function AvailableFormats(fs: seq<Format>): (menu: seq<Entry>)
    ensures Heights(menu) == SortDesc(Reduce(fs).order)
  {
    var red := Reduce(fs);
    var hs := SortDesc(red.order);
    RankedHeightsKept(fs);
    var menu := seq(|hs|, k requires 0 <= k < |hs| => Entry(hs[k], red.kept[hs[k]]));
    assert Heights(menu) == hs;
    menu
  }

  /**
   * The menu lists each height of a video format exactly once, and nothing
   * else; it is empty exactly when there is no video format.
   */
  lemma AvailableHeights(fs: seq<Format>)
    ensures Distinct(Heights(AvailableFormats(fs)))
    ensures forall h :: h in Heights(AvailableFormats(fs)) <==> h in VideoHeights(fs)
    ensures AvailableFormats(fs) == [] <==> forall j :: 0 <= j < |fs| ==> !IsVideo(fs[j])
  {
    var menu := AvailableFormats(fs);
    ReduceKeys(fs);
    SortDescDistinct(Reduce(fs).order);
    var hs := Heights(menu);
    forall h
      ensures h in hs <==> h in Reduce(fs).order
    {
      assert h in hs <==> h in multiset(hs);
    }
    if exists j :: 0 <= j < |fs| && IsVideo(fs[j]) {
      var j :| 0 <= j < |fs| && IsVideo(fs[j]);
      assert fs[j].height in VideoHeights(fs);
      assert fs[j].height in hs;
    }
    if menu != [] {
      assert hs[0] in VideoHeights(fs);
    }
  }

  /**
   * Each entry pairs its height with a video format of `fs` of that height,
   * the largest such, and on ties the first of the largest.
   */
  lemma AvailableLargest(fs: seq<Format>)
    ensures forall k :: 0 <= k < |AvailableFormats(fs)| ==>
      var e := AvailableFormats(fs)[k];
      e.format in fs && IsVideo(e.format) && e.format.height == e.height
    ensures forall k, j :: 0 <= k < |AvailableFormats(fs)| && 0 <= j < |fs| && IsVideoOf(fs, j, AvailableFormats(fs)[k].height) ==>
      Size(fs[j]) <= Size(AvailableFormats(fs)[k].format)
    ensures forall k, j :: 0 <= k < |AvailableFormats(fs)| && 0 <= j < |fs| && fs[j].height == AvailableFormats(fs)[k].height && FirstLargest(fs, j) ==>
      AvailableFormats(fs)[k].format == fs[j]
  {
    var menu := AvailableFormats(fs);
    var red := Reduce(fs);
    ReduceLargest(fs);
    ReduceFirstLargest(fs);
    RankedHeightsKept(fs);
    assert forall k :: 0 <= k < |menu| ==> menu[k].height in red.kept && menu[k].format == red.kept[menu[k].height];
  }

  /** The menu is ranked by key, highest first. */
  lemma AvailableSorted(fs: seq<Format>)
    ensures forall i, j :: 0 <= i < j < |AvailableFormats(fs)| ==>
      RankKey(AvailableFormats(fs)[i].height) >= RankKey(AvailableFormats(fs)[j].height)
  {
    SortDescSorted(Reduce(fs).order);
    var menu := AvailableFormats(fs);
    assert forall k :: 0 <= k < |menu| ==> menu[k].height == SortDesc(Reduce(fs).order)[k];
  }

  /** Heights with equal keys stay in the order in which they first appear in `fs`. */
  lemma AvailableStable(fs: seq<Format>)
    ensures forall k :: 0 <= k < |AvailableFormats(fs)| ==> AvailableFormats(fs)[k].height in VideoHeights(fs)
    ensures forall i, j :: 0 <= i < j < |AvailableFormats(fs)| && RankKey(AvailableFormats(fs)[i].height) == RankKey(AvailableFormats(fs)[j].height) ==>
      FirstIndex(fs, AvailableFormats(fs)[i].height) < FirstIndex(fs, AvailableFormats(fs)[j].height)
  {
    var menu := AvailableFormats(fs);
    var order := Reduce(fs).order;
    AvailableHeights(fs);
    assert forall k :: 0 <= k < |menu| ==> menu[k].height in Heights(menu);
    ReduceFirstSeen(fs);
    var vh := VideoHeights(fs);
    var rank := (h: Height) => if h in vh then FirstIndex(fs, h) as int else 0;
    SortDescStable(order, rank);
    var hs := SortDesc(order);
    assert forall k :: 0 <= k < |menu| ==> menu[k].height == hs[k];
  }

  /** `get_available_formats`: the reduction loop, then the stable descending sort. */
  method GetAvailableFormats(formats: seq<Format>) returns (menu: seq<Entry>)
    ensures menu == AvailableFormats(formats)
  {
    var order, kept := ReduceFormats(formats);
    var ranked := SortDesc(order);
    RankedHeightsKept(formats);
    menu := seq(|ranked|, k requires 0 <= k < |ranked| => Entry(ranked[k], kept[ranked[k]]));
  }

  /** An example listing: two 1080p formats of 50 and 80 MB, a 720p one of 30 MB and an audio-only stream. */
  const SmallFullHd := Format(Px(1080), Some("avc1"), Some(50_000_000))
  const LargeFullHd := Format(Px(1080), Some("avc1"), Some(80_000_000))
  const Hd := Format(Px(720), Some("avc1"), Some(30_000_000))
  const Sound := Format(Absent, Some("none"), Some(4_000_000))

  const ExampleListing := [SmallFullHd, LargeFullHd, Hd, Sound]

  /** The dictionary for the example: the larger 1080p format replaces the first, the audio stream is skipped. */
  lemma ExampleReduction()
    ensures Reduce(ExampleListing) == Reduction([Px(1080), Px(720)], map[Px(1080) := LargeFullHd, Px(720) := Hd])
  {
    var one := Reduction([Px(1080)], map[Px(1080) := SmallFullHd]);
    var two := Reduction([Px(1080)], map[Px(1080) := LargeFullHd]);
    assert Reduce([SmallFullHd]) == one by {
      assert [SmallFullHd][..0] == [];
    }
    assert Reduce([SmallFullHd, LargeFullHd]) == two by {
      assert [SmallFullHd, LargeFullHd][..1] == [SmallFullHd];
      assert Size(LargeFullHd) > Size(SmallFullHd);
    }
    assert Reduce(ExampleListing[..3]) == Step(two, Hd) by {
      assert ExampleListing[..3][..2] == [SmallFullHd, LargeFullHd];
    }
    assert !IsVideo(Sound);
  }

  /** The example's catalogue: the 80 MB 1080p format, then the 720p one. */
  lemma ExampleCatalogue()
    ensures AvailableFormats(ExampleListing) == [Entry(Px(1080), LargeFullHd), Entry(Px(720), Hd)]
  {
    ExampleReduction();
    assert SortDesc([Px(1080), Px(720)]) == [Px(1080), Px(720)];
    assert Heights(AvailableFormats(ExampleListing)) == [Px(1080), Px(720)];
  }
}
