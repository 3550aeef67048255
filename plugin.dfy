/**
 * wayfire_wallpaper's bookkeeping: which config sections exist, the order in
 * which configs are offered workspace indices, which config each workspace's
 * view ends up with, and the integer layout of the per-workspace views. The
 * compositor calls around this (creating and closing views, damage of the
 * whole output, signal registration) are not modelled.
 */
module Plugin {
  import opened Wrappers
  import opened View
  import opened Workspaces

  /** std::string's operator<: character by character, a proper prefix first. */
  predicate Less(a: string, b: string)
  {
    if |a| == 0 then |b| > 0
    else if |b| == 0 then false
    else a[0] < b[0] || (a[0] == b[0] && Less(a[1..], b[1..]))
  }

  lemma {:induction false} LessIrreflexive(a: string)
    ensures !Less(a, a)
  {
    if |a| > 0 {
      LessIrreflexive(a[1..]);
    }
  }

  lemma {:induction false} LessTransitive(a: string, b: string, c: string)
    requires Less(a, b) && Less(b, c)
    ensures Less(a, c)
  {
    if |a| > 0 && a[0] == b[0] && b[0] == c[0] {
      LessTransitive(a[1..], b[1..], c[1..]);
    }
  }

  lemma {:induction false} LessTotal(a: string, b: string)
    requires a != b
    ensures Less(a, b) || Less(b, a)
  {
    if |a| > 0 && |b| > 0 && a[0] == b[0] {
      assert a == [a[0]] + a[1..] && b == [b[0]] + b[1..];
      LessTotal(a[1..], b[1..]);
    }
  }

  lemma LessAsymmetric(a: string, b: string)
    requires Less(a, b)
    ensures !Less(b, a)
  {
    if Less(b, a) {
      LessTransitive(a, b, a);
      LessIrreflexive(a);
    }
  }

  /** The first key of a set of names in std::map order. */
  lemma {:induction false} Least(s: set<string>) returns (m: string)
    requires s != {}
    ensures m in s && forall o | o in s :: o == m || Less(m, o)
    decreases |s|
  {
    var x :| x in s;
    if s == {x} {
      m := x;
    } else {
      var m' := Least(s - {x});
      if x != m' {
        LessTotal(x, m');
      }
      if Less(x, m') {
        m := x;
        forall o | o in s
          ensures o == m || Less(m, o)
        {
          if o != x && o != m' {
            LessTransitive(x, m', o);
          }
        }
      } else {
        m := m';
      }
    }
  }

  /** The position of the first ':' in a section name. */
  function FirstColon(name: string, from: nat): (r: Option<nat>)
    requires from <= |name|
    ensures r.Some? ==> from <= r.value < |name| && name[r.value] == ':'
    ensures r.Some? ==> forall k :: from <= k < r.value ==> name[k] != ':'
    ensures r.None? ==> forall k :: from <= k < |name| ==> name[k] != ':'
    decreases |name| - from
  {
    if from == |name| then None else if name[from] == ':' then Some(from) else FirstColon(name, from + 1)
  }

  /** The section filter of load_config: the text before the first ':' must be "wallpaper". */
  predicate IsWallpaperSection(name: string)
    ensures IsWallpaperSection(name) ==> |name| >= 10 && name[..9] == "wallpaper" && name[9] == ':'
  {
    var c := FirstColon(name, 0);
    c.Some? && name[..c.value] == "wallpaper"
  }

  /** The filter accepts exactly the names that start with "wallpaper:". */
  lemma WallpaperSectionPrefix(name: string)
    ensures IsWallpaperSection(name) <==> |name| >= 10 && name[..10] == "wallpaper:"
  {
    var c := FirstColon(name, 0);
    if |name| >= 10 && name[..10] == "wallpaper:" {
      assert forall k | 0 <= k < 9 :: name[k] == name[..10][k];
      FirstColonAt(name, 0, 9);
      assert name[..9] == name[..10][..9];
    }
    if IsWallpaperSection(name) {
      assert c.value == 9;
      assert name[..10] == name[..9] + [name[9]];
    }
  }

  /** The search stops at the first ':'. */
  lemma {:induction false} FirstColonAt(name: string, from: nat, k: nat)
    requires from <= k < |name| && name[k] == ':'
    requires forall i | from <= i < k :: name[i] != ':'
    ensures FirstColon(name, from) == Some(k)
    decreases k - from
  {
    if from < k {
      FirstColonAt(name, from + 1, k);
    }
  }

  /** The config file as far as load_config sees it: each section's name and its workspaces value. */
  type ConfigFile = map<string, string>

  /** The wallpaper sections of a config file. */
  function WallpaperSections(file: ConfigFile): (r: set<string>)
    ensures forall n :: n in r <==> n in file && IsWallpaperSection(n)
  {
    set n | n in file.Keys && IsWallpaperSection(n)
  }

  predicate NamesIn(order: seq<WallpaperConfig>, file: ConfigFile)
  {
    forall i | 0 <= i < |order| :: order[i].name in file
  }

  /** workspace_specificity with the config's current workspaces value. */
  function SpecOf(file: ConfigFile, c: WallpaperConfig): nat
    requires c.name in file
  {
    Specificity(file[c.name])
  }

  /** Where a lands relative to b in confs_order: more specific first, then later names first. */
  predicate Before(file: ConfigFile, a: WallpaperConfig, b: WallpaperConfig)
    requires a.name in file && b.name in file
  {
    SpecOf(file, a) > SpecOf(file, b) || (SpecOf(file, a) == SpecOf(file, b) && Less(b.name, a.name))
  }

  /** confs_order as load_config leaves it. */
  predicate Arranged(order: seq<WallpaperConfig>, file: ConfigFile)
  {
    NamesIn(order, file) && forall i, j | 0 <= i < j < |order| :: Before(file, order[i], order[j])
  }

  /** An arranged order holds each config once. */
  lemma ArrangedDistinct(order: seq<WallpaperConfig>, file: ConfigFile)
    requires Arranged(order, file)
    ensures forall i, j | 0 <= i < j < |order| :: order[i] != order[j]
  {
    forall i, j | 0 <= i < j < |order|
      ensures order[i] != order[j]
    {
      LessIrreflexive(order[i].name);
    }
  }

  /**
   * std::lower_bound with cmp_specificity: the first position whose config is
   * not more specific than s.
   */
  function LowerBound(order: seq<WallpaperConfig>, file: ConfigFile, s: nat): (i: nat)
    requires NamesIn(order, file)
    ensures i <= |order|
    ensures forall k | 0 <= k < i :: SpecOf(file, order[k]) > s
    ensures i < |order| ==> SpecOf(file, order[i]) <= s
  {
    if |order| == 0 || SpecOf(file, order[0]) <= s then 0
    else 1 + LowerBound(order[1..], file, s)
  }

  /** Inserting x at position pos shifts the elements from pos on by one and adds x to the members. */
  lemma InsertAt<T>(s: seq<T>, pos: nat, x: T)
    requires pos <= |s|
    ensures |s[..pos] + [x] + s[pos..]| == |s| + 1
    ensures forall k | 0 <= k <= |s| ::
      (s[..pos] + [x] + s[pos..])[k] == if k < pos then s[k] else if k == pos then x else s[k - 1]
    ensures forall c :: c in s[..pos] + [x] + s[pos..] <==> c in s || c == x
  {
    assert s == s[..pos] + s[pos..];
  }

  /**
   * Inserting a config whose name is later than every name already placed at
   * its lower bound keeps the order arranged: it goes after the more specific
   * configs and before its own class, whose names are all earlier.
   */
  lemma InsertKeepsArranged(order: seq<WallpaperConfig>, file: ConfigFile, p: WallpaperConfig)
    requires Arranged(order, file) && p.name in file
    requires forall c | c in order :: Less(c.name, p.name)
    ensures var pos := LowerBound(order, file, SpecOf(file, p));
      Arranged(order[..pos] + [p] + order[pos..], file)
  {
    var pos := LowerBound(order, file, SpecOf(file, p));
    var r := order[..pos] + [p] + order[pos..];
    InsertedNames(order, file, p, pos);
    forall i, j | 0 <= i < j < |r|
      ensures Before(file, r[i], r[j])
    {
      InsertedPairOrdered(order, file, p, i, j);
    }
  }

  lemma InsertedNames(order: seq<WallpaperConfig>, file: ConfigFile, p: WallpaperConfig, pos: nat)
    requires NamesIn(order, file) && p.name in file && pos <= |order|
    ensures NamesIn(order[..pos] + [p] + order[pos..], file)
  {
    InsertAt(order, pos, p);
  }

  /** One pair of positions of the order with p inserted at its lower bound is in arranged order. */
  lemma InsertedPairOrdered(order: seq<WallpaperConfig>, file: ConfigFile, p: WallpaperConfig, i: nat, j: nat)
    requires Arranged(order, file) && p.name in file
    requires forall c | c in order :: Less(c.name, p.name)
    requires i < j <= |order|
    ensures var pos := LowerBound(order, file, SpecOf(file, p));
      var r := order[..pos] + [p] + order[pos..];
      r[i].name in file && r[j].name in file && Before(file, r[i], r[j])
  {
    var s := SpecOf(file, p);
    var pos := LowerBound(order, file, s);
    TailNotMoreSpecific(order, file, s);
    InsertAt(order, pos, p);
    if j < pos {
      assert Before(file, order[i], order[j]);
    } else if j == pos {
      assert SpecOf(file, order[i]) > s;
    } else if i < pos {
      assert Before(file, order[i], order[j - 1]);
    } else if i == pos {
      assert SpecOf(file, order[j - 1]) <= s && Less(order[j - 1].name, p.name);
    } else {
      assert Before(file, order[i - 1], order[j - 1]);
    }
  }

  /** Past the lower bound no config is more specific than s. */
  lemma TailNotMoreSpecific(order: seq<WallpaperConfig>, file: ConfigFile, s: nat)
    requires Arranged(order, file)
    ensures forall k | LowerBound(order, file, s) <= k < |order| :: SpecOf(file, order[k]) <= s
  {
    var pos := LowerBound(order, file, s);
    forall k | pos < k < |order|
      ensures SpecOf(file, order[k]) <= s
    {
      assert Before(file, order[pos], order[k]);
    }
  }

  /** The first config in order whose workspaces value takes index idx. */
  function FirstMatch(order: seq<WallpaperConfig>, file: ConfigFile, idx: int): (r: Option<nat>)
    requires NamesIn(order, file)
    ensures r.Some? ==> r.value < |order| && Matches(file[order[r.value].name], idx)
    ensures r.Some? ==> forall k | 0 <= k < r.value :: !Matches(file[order[k].name], idx)
    ensures r.None? ==> forall k | 0 <= k < |order| :: !Matches(file[order[k].name], idx)
  {
    if |order| == 0 then None
    else if Matches(file[order[0].name], idx) then Some(0)
    else
      var r := FirstMatch(order[1..], file, idx);
      if r.None? then None else Some(r.value + 1)
  }

  /** The views, in index order, whose first matching config is order[j]. */
  function AssignedTo(order: seq<WallpaperConfig>, file: ConfigFile, views: seq<WallpaperView>, j: nat)
    : seq<WallpaperView>
    requires NamesIn(order, file)
  {
    if |views| == 0 then []
    else
      AssignedTo(order, file, views[..|views| - 1], j)
      + (if FirstMatch(order, file, |views| - 1) == Some(j) then [views[|views| - 1]] else [])
  }

  /** One more view extends exactly the list of its first matching config. */
  lemma AssignedExtend(order: seq<WallpaperConfig>, file: ConfigFile, views: seq<WallpaperView>, n: nat)
    requires NamesIn(order, file) && n < |views|
    ensures forall j | 0 <= j < |order| ::
      AssignedTo(order, file, views[..n + 1], j)
      == AssignedTo(order, file, views[..n], j) + (if FirstMatch(order, file, n) == Some(j) then [views[n]] else [])
  {
    assert views[..n + 1][..n] == views[..n];
  }

  /** With distinct views, a view is in order[j]'s list exactly when order[j] is the first config matching its index. */
  lemma {:induction false} ViewPlacement(order: seq<WallpaperConfig>, file: ConfigFile,
                                         views: seq<WallpaperView>, i: nat, j: nat)
    requires NamesIn(order, file) && i < |views|
    requires forall a, b | 0 <= a < b < |views| :: views[a] != views[b]
    ensures views[i] in AssignedTo(order, file, views, j) <==> FirstMatch(order, file, i) == Some(j)
    decreases |views|
  {
    var n := |views| - 1;
    var init := views[..n];
    DistinctPrefix(views);
    NotAssigned(order, file, init, views[n], j);
    if i < n {
      ViewPlacement(order, file, init, i, j);
      assert views[i] != views[n];
    }
  }

  /** The views before the last are distinct, keep their positions, and do not include the last. */
  lemma DistinctPrefix(views: seq<WallpaperView>)
    requires |views| > 0
    requires forall a, b | 0 <= a < b < |views| :: views[a] != views[b]
    ensures var init := views[..|views| - 1];
      && views[|views| - 1] !in init
      && (forall k | 0 <= k < |init| :: init[k] == views[k])
      && (forall a, b | 0 <= a < b < |init| :: init[a] != init[b])
  {
  }

  /** A view that is not among the first views is not in any of their lists. */
  lemma {:induction false} NotAssigned(order: seq<WallpaperConfig>, file: ConfigFile,
                                       views: seq<WallpaperView>, v: WallpaperView, j: nat)
    requires NamesIn(order, file) && v !in views
    ensures v !in AssignedTo(order, file, views, j)
    decreases |views|
  {
    if |views| > 0 {
      NotAssigned(order, file, views[..|views| - 1], v, j);
    }
  }

  /**
   * Specific configs come first, so a wildcard config only receives the
   * indices that no specific config lists.
   */
  lemma WildcardIsFallback(order: seq<WallpaperConfig>, file: ConfigFile, idx: int, j: nat)
    requires Arranged(order, file)
    requires FirstMatch(order, file, idx) == Some(j) && SpecOf(file, order[j]) == 0
    ensures forall k | 0 <= k < |order| && SpecOf(file, order[k]) == 1 :: k < j && !Matches(file[order[k].name], idx)
  {
  }

  /** Once any wildcard config exists, every index is given to some config. */
  lemma WildcardPlacesEveryIndex(order: seq<WallpaperConfig>, file: ConfigFile, idx: int, w: nat)
    requires NamesIn(order, file) && w < |order| && file[order[w].name] == Wildcard
    ensures FirstMatch(order, file, idx).Some?
  {
    assert Matches(file[order[w].name], idx);
  }

  /** The point a workspace occupies in the grid. */
  datatype Point = Point(x: int, y: int)

  /** A grid or screen size. */
  datatype Size = Size(width: int, height: int)

  /** The position of workspace (x, y)'s view in ws_views. */
  function GridIndex(x: int, y: int, width: int): int
  {
    x + width * y
  }

  /** GridIndex numbers the grid row by row, each cell once, from 0 to width * height - 1. */
  lemma GridIndexBijective(x: int, y: int, width: int, height: int)
    requires 0 <= x < width && 0 <= y < height
    ensures 0 <= GridIndex(x, y, width) < width * height
    ensures GridIndex(x, y, width) / width == y && GridIndex(x, y, width) % width == x
  {
    DivUnique(GridIndex(x, y, width), width, y, x);
    assert width * y + width <= width * height by {
      MulMonotone(width, y + 1, height);
    }
  }

  lemma MulMonotone(w: nat, a: nat, b: nat)
    requires a <= b
    ensures w * a <= w * b
  {
  }

  /** Distinct cells have distinct indices. */
  lemma GridIndexInjective(x: int, y: int, x': int, y': int, width: int, height: int)
    requires 0 <= x < width && 0 <= y < height && 0 <= x' < width && 0 <= y' < height
    requires GridIndex(x, y, width) == GridIndex(x', y', width)
    ensures x == x' && y == y'
  {
    GridIndexBijective(x, y, width, height);
    GridIndexBijective(x', y', width, height);
  }

  /** Whether the inner layout loop, at row y of column x, has already visited cell index i. */
  predicate ColumnDone(i: int, w: int, x: int, y: int)
    requires w > 0
  {
    i % w == x && i / w < y
  }

  /** Every index below width * height is a cell of the grid. */
  lemma GridCell(i: int, w: int, h: int)
    requires w > 0 && 0 <= i < w * h
    ensures i == GridIndex(i % w, i / w, w) && 0 <= i % w < w && 0 <= i / w < h
  {
    var y := i / w;
    if y >= h {
      MulMonotone(w, h, y);
    }
  }

  /** Visiting cell (x, y) adds exactly that cell's index to those done. */
  lemma DoneStep(w: int, x: int, y: int)
    requires w > 0 && 0 <= x < w && 0 <= y
    ensures forall i :: i >= 0 ==> (ColumnDone(i, w, x, y + 1) <==> ColumnDone(i, w, x, y) || i == GridIndex(x, y, w))
  {
    forall i | i >= 0
      ensures ColumnDone(i, w, x, y + 1) <==> ColumnDone(i, w, x, y) || i == GridIndex(x, y, w)
    {
      DivUnique(GridIndex(x, y, w), w, y, x);
      DivUnique(i, w, i / w, i % w);
    }
  }

  /** The geometry of workspace (x, y)'s view while ws is the current workspace. */
  function Layout(x: int, y: int, ws: Point, output: Rect): Rect
  {
    Rect((x - ws.x) * output.width, (y - ws.y) * output.height, output.width, output.height)
  }

  /** The move workspace_changed applies to every view. */
  function Shifted(g: Rect, from: Point, to: Point, screen: Size): Rect
  {
    g.(x := g.x + (from.x - to.x) * screen.width, y := g.y + (from.y - to.y) * screen.height)
  }

  /**
   * The shift keeps the layout consistent: a view laid out for one current
   * workspace, moved on a switch to another, sits where the layout for the
   * new workspace puts it.
   */
  lemma ShiftMatchesLayout(x: int, y: int, from: Point, to: Point, output: Rect)
    ensures Shifted(Layout(x, y, from, output), from, to, Size(output.width, output.height))
      == Layout(x, y, to, output)
  {
    assert (x - from.x) * output.width + (from.x - to.x) * output.width == (x - to.x) * output.width;
    assert (y - from.y) * output.height + (from.y - to.y) * output.height == (y - to.y) * output.height;
  }

  /** The current workspace's view covers the output's own rectangle. */
  lemma CurrentWorkspaceAtOrigin(ws: Point, output: Rect)
    ensures Layout(ws.x, ws.y, ws, output) == Rect(0, 0, output.width, output.height)
  {
  }

  class WallpaperPlugin {
    var wsViews: seq<WallpaperView>
    var confs: map<string, WallpaperConfig>
    var confsOrder: seq<WallpaperConfig>

    ghost predicate Valid()
      reads this
    {
      && (forall k | k in confs :: confs[k].name == k && IsWallpaperSection(k))
      && (forall a, b | 0 <= a < b < |wsViews| :: wsViews[a] != wsViews[b])
    }

    /**
     * load_config: add a config for each new wallpaper section, erase those
     * whose section vanished, order the rest by specificity (lower_bound
     * insertion in name order), then give each workspace index to the first
     * config in that order that matches it.
     */
    method LoadConfig(file: ConfigFile)
      requires Valid()
      modifies this`confs, this`confsOrder, confs.Values
      ensures Valid()
      ensures confs.Keys == WallpaperSections(file)
      ensures forall k | k in confs && k in old(confs) :: confs[k] == old(confs[k])
      ensures forall k | k in confs && k !in old(confs) :: fresh(confs[k])
      ensures forall k | k in confs :: confs[k] in confsOrder
      ensures forall c | c in confsOrder :: c.name in confs && confs[c.name] == c
      ensures Arranged(confsOrder, file)
      ensures forall i, j | 0 <= i < j < |confsOrder| :: confsOrder[i] != confsOrder[j]
      ensures forall i, j | 0 <= i < j < |confsOrder| :: SpecOf(file, confsOrder[i]) >= SpecOf(file, confsOrder[j])
      ensures forall j | 0 <= j < |confsOrder| :: confsOrder[j].views == AssignedTo(confsOrder, file, wsViews, j)
    {
      confsOrder := [];
      AddSections(file);
      ArrangeConfs(file);
      ArrangedDistinct(confsOrder, file);
      AssignViews(file);
    }

    /** The try_emplace pass: one new config per wallpaper section not yet known. */
    method AddSections(file: ConfigFile)
      requires Valid()
      modifies this`confs
      ensures Valid() && confsOrder == old(confsOrder)
      ensures confs.Keys == old(confs.Keys) + WallpaperSections(file)
      ensures forall k | k in old(confs) :: confs[k] == old(confs[k])
      ensures forall k | k in confs && k !in old(confs) :: fresh(confs[k]) && confs[k].views == []
    {
      var names := file.Keys;
      while names != {}
        invariant names <= file.Keys
        invariant Valid()
        invariant forall k :: k in confs <==> k in old(confs) || (k in file && k !in names && IsWallpaperSection(k))
        invariant forall k | k in old(confs) :: confs[k] == old(confs[k])
        invariant forall k | k in confs && k !in old(confs) :: fresh(confs[k]) && confs[k].views == []
        decreases |names|
      {
        var n :| n in names;
        AddSection(n);
        names := names - {n};
      }
    }

    /** One try_emplace: a fresh config for a wallpaper section not yet known, nothing otherwise. */
    method AddSection(n: string)
      requires Valid()
      modifies this`confs
      ensures Valid()
      ensures IsWallpaperSection(n) && n !in old(confs) ==>
        n in confs && fresh(confs[n]) && confs[n].views == [] && confs == old(confs)[n := confs[n]]
      ensures !(IsWallpaperSection(n) && n !in old(confs)) ==> confs == old(confs)
    {
      if IsWallpaperSection(n) && n !in confs {
        var c := new WallpaperConfig(n);
        confs := confs[n := c];
      }
    }

    /**
     * The pass over confs in key order: erase a config whose section is gone,
     * otherwise insert it into confs_order at its lower bound and clear its views.
     */
    method ArrangeConfs(file: ConfigFile)
      requires Valid() && confsOrder == []
      modifies this`confs, this`confsOrder, confs.Values
      ensures Valid()
      ensures forall k :: k in confs <==> k in old(confs) && k in file
      ensures forall k | k in confs :: confs[k] == old(confs[k]) && confs[k] in confsOrder
      ensures forall c | c in confsOrder :: c.name in confs && confs[c.name] == c
      ensures Arranged(confsOrder, file)
      ensures forall i | 0 <= i < |confsOrder| :: confsOrder[i].views == []
    {
      ghost var before := confs;
      var keys := confs.Keys;
      var remaining := keys;
      while remaining != {}
        invariant remaining <= keys && keys == before.Keys && before == old(confs)
        invariant Placing(keys, remaining, before, file)
        decreases |remaining|
      {
        ghost var least := Least(remaining);
        var m :| m in remaining && forall o | o in remaining :: o == m || Less(m, o);
        PlaceNext(m, keys, remaining, before, file);
        remaining := remaining - {m};
      }
    }

    /**
     * The state of the ordering pass once the keys of keys outside remaining
     * have been visited in name order.
     */
    ghost predicate Placing(keys: set<string>, remaining: set<string>, before: map<string, WallpaperConfig>,
                            file: ConfigFile)
      reads this, set i | 0 <= i < |confsOrder| :: confsOrder[i]
    {
      && Valid()
      && remaining <= keys
      && confs.Keys <= keys
      && (forall k | k in keys :: k in confs <==> k in remaining || k in file)
      && (forall k | k in confs :: k in before && confs[k] == before[k])
      && (forall a, b | a in keys && a !in remaining && b in remaining :: Less(a, b))
      && Arranged(confsOrder, file)
      && (forall c | c in confsOrder ::
            c.name in keys && c.name !in remaining && c.name in file && c.name in before && before[c.name] == c)
      && (forall k | k in keys && k !in remaining && k in file :: k in before && before[k] in confsOrder)
      && (forall i | 0 <= i < |confsOrder| :: confsOrder[i].views == [])
    }

    /** One turn of the ordering loop: place m, the earliest name not yet visited. */
    method PlaceNext(m: string, ghost keys: set<string>, ghost remaining: set<string>,
                     ghost before: map<string, WallpaperConfig>, file: ConfigFile)
      requires keys == before.Keys && Placing(keys, remaining, before, file)
      requires m in remaining && forall o | o in remaining :: o == m || Less(m, o)
      modifies this`confs, this`confsOrder, (before[m] as WallpaperConfig)`views
      ensures Placing(keys, remaining - {m}, before, file)
    {
      forall c | c in confsOrder
        ensures Less(c.name, m)
      {
      }
      PlaceConf(m, file);
      forall a, b | a in keys && (a !in remaining || a == m) && b in remaining && b != m
        ensures Less(a, b)
      {
      }
    }

    /** One step of that pass, for the key m, which is later than every key placed so far. */
    method PlaceConf(m: string, file: ConfigFile)
      requires Valid() && m in confs
      requires Arranged(confsOrder, file)
      requires forall c | c in confsOrder :: Less(c.name, m)
      requires forall i | 0 <= i < |confsOrder| :: confsOrder[i].views == []
      modifies this`confs, this`confsOrder, (confs[m] as WallpaperConfig)`views
      ensures Valid()
      ensures m !in file ==> confs == old(confs) - {m} && confsOrder == old(confsOrder)
      ensures m in file ==> confs == old(confs)
      ensures forall c :: c in confsOrder <==> c in old(confsOrder) || (m in file && c == old(confs[m]))
      ensures Arranged(confsOrder, file)
      ensures forall i | 0 <= i < |confsOrder| :: confsOrder[i].views == []
    {
      if m !in file {
        confs := confs - {m};
      } else {
        var p := confs[m];
        InsertKeepsArranged(confsOrder, file, p);
        var pos := LowerBound(confsOrder, file, SpecOf(file, p));
        InsertAt(confsOrder, pos, p);
        confsOrder := confsOrder[..pos] + [p] + confsOrder[pos..];
        p.ResetViews();
      }
    }

    /** The assignment pass: each view index goes to the first matching config in confs_order. */
    method AssignViews(file: ConfigFile)
      requires Arranged(confsOrder, file)
      requires forall i, j | 0 <= i < j < |confsOrder| :: confsOrder[i] != confsOrder[j]
      requires forall i | 0 <= i < |confsOrder| :: confsOrder[i].views == []
      modifies set i | 0 <= i < |confsOrder| :: confsOrder[i]
      ensures forall j | 0 <= j < |confsOrder| :: confsOrder[j].views == AssignedTo(confsOrder, file, wsViews, j)
    {
      var idx := 0;
      while idx < |wsViews|
        invariant 0 <= idx <= |wsViews|
        invariant forall j | 0 <= j < |confsOrder| ::
          confsOrder[j].views == AssignedTo(confsOrder, file, wsViews[..idx], j)
      {
        AssignedExtend(confsOrder, file, wsViews, idx);
        var _ := OfferView(idx, wsViews[idx], file);
        idx := idx + 1;
      }
      assert wsViews[..idx] == wsViews;
    }

    /** The inner loop: offer view idx to each config in turn until one takes it. */
    method OfferView(idx: int, view: WallpaperView, file: ConfigFile) returns (taken: Option<nat>)
      requires NamesIn(confsOrder, file)
      requires forall i, j | 0 <= i < j < |confsOrder| :: confsOrder[i] != confsOrder[j]
      modifies set i | 0 <= i < |confsOrder| :: confsOrder[i]
      ensures taken == FirstMatch(confsOrder, file, idx)
      ensures forall k | 0 <= k < |confsOrder| ::
        confsOrder[k].views == old(confsOrder[k].views) + (if taken == Some(k) then [view] else [])
    {
      var j := 0;
      while j < |confsOrder|
        invariant 0 <= j <= |confsOrder|
        invariant forall k | 0 <= k < j :: !Matches(file[confsOrder[k].name], idx)
        invariant forall k | 0 <= k < |confsOrder| :: confsOrder[k].views == old(confsOrder[k].views)
      {
        var matched := confsOrder[j].MatchAddView(idx, view, file[confsOrder[j].name]);
        if matched {
          return Some(j);
        }
        j := j + 1;
      }
      return None;
    }

    /**
     * The output-configuration-changed handler: unless nothing changed, the
     * source changed or there are no views, lay out the view of every grid
     * cell relative to the current workspace and damage it.
     */
    method OnOutputConfigurationChanged(fieldsChanged: bool, sourceChanged: bool, output: Rect, ws: Point, grid: Size)
      returns (laidOut: bool)
      requires Valid() && grid.width > 0 && grid.height > 0 && (|wsViews| == 0 || |wsViews| == grid.width * grid.height)
      modifies (set v | v in wsViews)`geometry, (set v | v in wsViews)`damages
      ensures laidOut <==> fieldsChanged && !sourceChanged && |wsViews| > 0
      ensures laidOut ==> forall i | 0 <= i < |wsViews| ::
        wsViews[i].geometry == Layout(i % grid.width, i / grid.width, ws, output)
      ensures laidOut ==> forall v | v in wsViews :: v.damages == old(v.damages) + 1
      ensures !laidOut ==> forall v | v in wsViews :: v.geometry == old(v.geometry) && v.damages == old(v.damages)
    {
      if !fieldsChanged || sourceChanged || |wsViews| == 0 {
        return false;
      }
      LayOut(output, ws, grid);
      return true;
    }

    /**
     * The nested loops that set every cell's geometry and damage its view;
     * ws_views[i] is the view of cell (i % width, i / width).
     */
    method LayOut(output: Rect, ws: Point, grid: Size)
      requires Valid() && grid.width > 0 && grid.height > 0 && |wsViews| == grid.width * grid.height
      modifies (set v | v in wsViews)`geometry, (set v | v in wsViews)`damages
      ensures forall i | 0 <= i < |wsViews| ::
        wsViews[i].geometry == Layout(i % grid.width, i / grid.width, ws, output)
      ensures forall i | 0 <= i < |wsViews| :: wsViews[i].damages == old(wsViews[i].damages) + 1
    {
      var w := grid.width;
      var x := 0;
      while x < w
        invariant 0 <= x <= w
        invariant forall i | 0 <= i < |wsViews| && i % w < x ::
          wsViews[i].geometry == Layout(i % w, i / w, ws, output) && wsViews[i].damages == old(wsViews[i].damages) + 1
        invariant forall i | 0 <= i < |wsViews| && i % w >= x :: wsViews[i].damages == old(wsViews[i].damages)
      {
        LayOutColumn(output, ws, grid, x);
        x := x + 1;
      }
    }

    /** One pass of the outer layout loop: lay out and damage every cell of column x. */
    method LayOutColumn(output: Rect, ws: Point, grid: Size, x: int)
      requires Valid() && grid.width > 0 && grid.height > 0 && |wsViews| == grid.width * grid.height
      requires 0 <= x < grid.width
      modifies (set v | v in wsViews)`geometry, (set v | v in wsViews)`damages
      ensures forall i | 0 <= i < |wsViews| && i % grid.width == x ::
        wsViews[i].geometry == Layout(x, i / grid.width, ws, output) && wsViews[i].damages == old(wsViews[i].damages) + 1
      ensures forall i | 0 <= i < |wsViews| && i % grid.width != x ::
        wsViews[i].geometry == old(wsViews[i].geometry) && wsViews[i].damages == old(wsViews[i].damages)
    {
      var w := grid.width;
      var y := 0;
      while y < grid.height
        invariant 0 <= y <= grid.height
        invariant forall i | 0 <= i < |wsViews| && ColumnDone(i, w, x, y) ::
          wsViews[i].geometry == Layout(x, i / w, ws, output) && wsViews[i].damages == old(wsViews[i].damages) + 1
        invariant forall i | 0 <= i < |wsViews| && !ColumnDone(i, w, x, y) ::
          wsViews[i].geometry == old(wsViews[i].geometry) && wsViews[i].damages == old(wsViews[i].damages)
      {
        var i := GridIndex(x, y, w);
        GridIndexBijective(x, y, w, grid.height);
        DoneStep(w, x, y);
        wsViews[i].geometry := Layout(x, y, ws, output);
        wsViews[i].damages := wsViews[i].damages + 1;
        y := y + 1;
      }
      forall i | 0 <= i < |wsViews|
        ensures ColumnDone(i, w, x, grid.height) <==> i % w == x
      {
        GridCell(i, w, grid.height);
      }
    }

    /** Clear the views of every config, in the map's order. */
    method ResetAllViews()
      modifies confs.Values
      ensures forall k | k in confs :: confs[k].views == []
    {
      var remaining := confs.Keys;
      while remaining != {}
        invariant remaining <= confs.Keys
        invariant forall k | k in confs && k !in remaining :: confs[k].views == []
        decreases |remaining|
      {
        var k :| k in remaining;
        confs[k].ResetViews();
        remaining := remaining - {k};
      }
    }

    /**
     * The drop-and-resize pass of the workspace-grid-changed handler: the views
     * past newCount lose from and to (and are closed), the first views are
     * kept as they are, and fresh views fill the list up to newCount.
     */
    method ResizeViews(newCount: nat)
      requires Valid()
      modifies this`wsViews, (set v | v in wsViews)`from, (set v | v in wsViews)`to
      ensures Valid() && |wsViews| == newCount
      ensures forall i | 0 <= i < |wsViews| && i < |old(wsViews)| ::
        wsViews[i] == old(wsViews[i]) && wsViews[i].from == old(wsViews[i].from) && wsViews[i].to == old(wsViews[i].to)
      ensures forall i | |old(wsViews)| <= i < |wsViews| ::
        fresh(wsViews[i]) && wsViews[i].from == null && wsViews[i].to == null && wsViews[i].damages == 0
      ensures forall i | newCount <= i < |old(wsViews)| :: old(wsViews)[i].from == null && old(wsViews)[i].to == null
    {
      var oldCount := |wsViews|;
      var i := newCount;
      while i < oldCount
        invariant wsViews == old(wsViews) && newCount <= i
        invariant forall k | 0 <= k < oldCount && k < newCount ::
          wsViews[k].from == old(wsViews[k].from) && wsViews[k].to == old(wsViews[k].to)
        invariant forall k | newCount <= k < i && k < oldCount :: wsViews[k].from == null && wsViews[k].to == null
      {
        wsViews[i].from := null;
        wsViews[i].to := null;
        i := i + 1;
      }
      if newCount < oldCount {
        wsViews := wsViews[..newCount];
      }
      i := |wsViews|;
      while i < newCount
        invariant i == |wsViews| <= newCount
        invariant forall k | 0 <= k < |wsViews| && k < oldCount ::
          wsViews[k] == old(wsViews)[k] && wsViews[k].from == old(wsViews[k].from) && wsViews[k].to == old(wsViews[k].to)
        invariant forall k | oldCount <= k < |wsViews| ::
          fresh(wsViews[k]) && wsViews[k].from == null && wsViews[k].to == null && wsViews[k].damages == 0
        invariant forall k | newCount <= k < oldCount :: old(wsViews)[k].from == null && old(wsViews)[k].to == null
        invariant Valid()
      {
        var v := new WallpaperView();
        wsViews := wsViews + [v];
        i := i + 1;
      }
    }

    /**
     * The workspace-grid-changed handler: clear every config's views, drop
     * the loadables of the views past the new cell count and close them, keep
     * the first views, create one fresh view per new cell, lay out and damage
     * every cell and reload the config.
     */
    method OnWorkspaceGridChanged(oldGrid: Size, newGrid: Size, output: Rect, ws: Point, file: ConfigFile)
      requires Valid() && oldGrid.width > 0 && oldGrid.height > 0 && newGrid.width > 0 && newGrid.height > 0
      requires |wsViews| == oldGrid.width * oldGrid.height
      modifies this`wsViews, this`confs, this`confsOrder, confs.Values
      modifies (set v | v in wsViews)`from, (set v | v in wsViews)`to
      modifies (set v | v in wsViews)`geometry, (set v | v in wsViews)`damages
      ensures Valid() && |wsViews| == newGrid.width * newGrid.height
      ensures forall i | 0 <= i < |wsViews| && i < |old(wsViews)| ::
        && wsViews[i] == old(wsViews[i])
        && wsViews[i].from == old(wsViews[i].from) && wsViews[i].to == old(wsViews[i].to)
        && wsViews[i].damages == old(wsViews[i].damages) + 1
      ensures forall i | |old(wsViews)| <= i < |wsViews| ::
        fresh(wsViews[i]) && wsViews[i].from == null && wsViews[i].to == null && wsViews[i].damages == 1
      ensures forall i | |wsViews| <= i < |old(wsViews)| :: old(wsViews)[i].from == null && old(wsViews)[i].to == null
      ensures forall i | 0 <= i < |wsViews| ::
        wsViews[i].geometry == Layout(i % newGrid.width, i / newGrid.width, ws, output)
      ensures confs.Keys == WallpaperSections(file) && Arranged(confsOrder, file)
      ensures forall j | 0 <= j < |confsOrder| :: confsOrder[j].views == AssignedTo(confsOrder, file, wsViews, j)
    {
      ResetAllViews();
      ResizeViews(newGrid.width * newGrid.height);
      LayOut(output, ws, newGrid);
      LoadConfig(file);
    }

    /** The workspace-changed handler: move every view by the distance between the two workspaces. */
    method OnWorkspaceChanged(from: Point, to: Point, screen: Size)
      requires Valid()
      modifies (set v | v in wsViews)`geometry
      ensures forall i | 0 <= i < |wsViews| :: wsViews[i].geometry == Shifted(old(wsViews[i].geometry), from, to, screen)
    {
      var i := 0;
      while i < |wsViews|
        invariant 0 <= i <= |wsViews|
        invariant forall k | 0 <= k < i :: wsViews[k].geometry == Shifted(old(wsViews[k].geometry), from, to, screen)
        invariant forall k | i <= k < |wsViews| :: wsViews[k].geometry == old(wsViews[k].geometry)
      {
        var g := wsViews[i].geometry;
        wsViews[i].geometry := g.(x := g.x + (from.x - to.x) * screen.width, y := g.y + (from.y - to.y) * screen.height);
        i := i + 1;
      }
    }

    /**
     * The effect hook: tick every animating view, and ask for another frame
     * when an animating view with a frameskip other than 1 is visible.
     */
    method TickAnimations(visible: set<WallpaperView>) returns (scheduleRedraw: bool)
      requires Valid()
      requires forall v | v in wsViews :: v.animate ==> v.frameskip != 0
      modifies (set v | v in wsViews)`fromFrames, (set v | v in wsViews)`toFrames,
        (set v | v in wsViews)`totalFrames, (set v | v in wsViews)`damages
      ensures scheduleRedraw <==> exists v | v in wsViews :: v.animate && v.frameskip != 1 && v in visible
      ensures forall v | v in wsViews :: TickedOrKept(v, v.animate)
    {
      scheduleRedraw := false;
      var i := 0;
      while i < |wsViews|
        invariant 0 <= i <= |wsViews|
        invariant scheduleRedraw <==> exists k | 0 <= k < i :: wsViews[k].animate && wsViews[k].frameskip != 1 && wsViews[k] in visible
        invariant forall k | 0 <= k < |wsViews| :: TickedOrKept(wsViews[k], k < i && wsViews[k].animate)
      {
        assert forall k | 0 <= k < |wsViews| && k != i :: wsViews[k] != wsViews[i];
        var redraw := TickIfAnimating(wsViews[i], visible);
        scheduleRedraw := scheduleRedraw || redraw;
        i := i + 1;
      }
    }
  }

  /**
   * The counters of v after one tick_animation when ticked holds (a frame
   * more in total, one per loaded side, a damage when the frameskip test
   * passes), untouched otherwise.
   */
  twostate predicate TickedOrKept(v: WallpaperView, ticked: bool)
    requires ticked ==> v.frameskip != 0
    reads v, v.from, v.to
  {
    && v.totalFrames == old(v.totalFrames) + (if ticked then 1 else 0)
    && v.fromFrames == old(v.fromFrames) + (if ticked && HasRenderable(v.from) then 1 else 0)
    && v.toFrames == old(v.toFrames) + (if ticked && HasRenderable(v.to) then 1 else 0)
    && v.damages == old(v.damages) + (if ticked && Redraws(v.totalFrames, v.frameskip) then 1 else 0)
  }

  /** One turn of the effect hook's loop: tick view if it animates, and say whether it asks for a redraw. */
  method TickIfAnimating(view: WallpaperView, visible: set<WallpaperView>) returns (redraw: bool)
    requires view.animate ==> view.frameskip != 0
    modifies view`fromFrames, view`toFrames, view`totalFrames, view`damages
    ensures TickedOrKept(view, view.animate)
    ensures redraw <==> view.animate && view.frameskip != 1 && view in visible
  {
    redraw := false;
    if view.animate {
      var _ := view.TickAnimation();
      if view.frameskip != 1 && view in visible {
        redraw := true;
      }
    }
  }
}
