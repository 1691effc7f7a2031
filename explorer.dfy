/**
 * The file explorer's bookkeeping: the order its entries are listed in, the
 * bounded stack of earlier roots, the column width and the focus/open and
 * help/preview flags. Tree views are opaque values of type `TV`; paths are
 * sequences of components.
 */
module Explorer {
  import opened Wrappers

  datatype Ordering = Less | Equal | Greater {
    function Reverse(): Ordering {
      match this
      case Less => Greater
      case Equal => Equal
      case Greater => Less
    }
  }

  // ---------------------------------------------------------------------
  // Paths

  /** A path component; the constructors are listed in their `Ord` order. */
  datatype Component = RootDir | CurDir | ParentDir | Normal(name: string)

  type Path = seq<Component>

  /** Characters compared one by one; a proper prefix sorts first. */
  function NameCmp(a: string, b: string): (o: Ordering)
    ensures o == Equal <==> a == b
    ensures a < b ==> o == Less
    decreases |a|
  {
    if |a| == 0 then (if |b| == 0 then Equal else Less)
    else if |b| == 0 then Greater
    else if a[0] < b[0] then Less
    else if a[0] > b[0] then Greater
    else NameCmp(a[1..], b[1..])
  }

  function Rank(c: Component): nat {
    match c
    case RootDir => 0
    case CurDir => 1
    case ParentDir => 2
    case Normal(_) => 3
  }

  function ComponentCmp(a: Component, b: Component): (o: Ordering)
    ensures o == Equal <==> a == b
  {
    if Rank(a) < Rank(b) then Less
    else if Rank(a) > Rank(b) then Greater
    else if a.Normal? then NameCmp(a.name, b.name)
    else Equal
  }

  /** `Path::cmp`: components compared one by one; a proper prefix sorts first. */
  function PathCmp(a: Path, b: Path): (o: Ordering)
    ensures o == Equal <==> a == b
    ensures a < b ==> o == Less
    decreases |a|
  {
    if |a| == 0 then (if |b| == 0 then Equal else Less)
    else if |b| == 0 then Greater
    else if ComponentCmp(a[0], b[0]) != Equal then ComponentCmp(a[0], b[0])
    else PathCmp(a[1..], b[1..])
  }

  /** `Path::parent`: the path without its last component; none for an empty path or a bare root. */
  function ParentPath(p: Path): (r: Option<Path>)
    ensures r.Some? ==> |p| > 0 && p[|p| - 1] != RootDir && r.value + [p[|p| - 1]] == p
    ensures r.None? ==> |p| == 0 || p[|p| - 1] == RootDir
  {
    if |p| == 0 || p[|p| - 1] == RootDir then None else Some(p[..|p| - 1])
  }

  lemma {:induction false} NameCmpReverse(a: string, b: string)
    ensures NameCmp(b, a) == NameCmp(a, b).Reverse()
    ensures NameCmp(a, b) == Equal <==> a == b
    decreases |a|
  {
    if |a| > 0 && |b| > 0 && a[0] == b[0] {
      NameCmpReverse(a[1..], b[1..]);
      if a[1..] == b[1..] {
        assert a == [a[0]] + a[1..] && b == [b[0]] + b[1..];
      }
    }
  }

  lemma {:induction false} NameCmpTransitive(a: string, b: string, c: string)
    requires NameCmp(a, b) == Less && NameCmp(b, c) == Less
    ensures NameCmp(a, c) == Less
    decreases |a|
  {
    if |a| > 0 && |b| > 0 && |c| > 0 && a[0] == b[0] && b[0] == c[0] {
      NameCmpTransitive(a[1..], b[1..], c[1..]);
    }
  }

  lemma ComponentCmpReverse(a: Component, b: Component)
    ensures ComponentCmp(b, a) == ComponentCmp(a, b).Reverse()
    ensures ComponentCmp(a, b) == Equal <==> a == b
  {
    if a.Normal? && b.Normal? {
      NameCmpReverse(a.name, b.name);
    }
  }

  lemma ComponentCmpTransitive(a: Component, b: Component, c: Component)
    requires ComponentCmp(a, b) == Less && ComponentCmp(b, c) == Less
    ensures ComponentCmp(a, c) == Less
  {
    if a.Normal? && b.Normal? && c.Normal? {
      NameCmpTransitive(a.name, b.name, c.name);
    }
  }

  /** Path order is antisymmetric and says Equal exactly for equal paths. */
  lemma {:induction false} PathCmpReverse(a: Path, b: Path)
    ensures PathCmp(b, a) == PathCmp(a, b).Reverse()
    ensures PathCmp(a, b) == Equal <==> a == b
    decreases |a|
  {
    if |a| > 0 && |b| > 0 {
      ComponentCmpReverse(a[0], b[0]);
      if ComponentCmp(a[0], b[0]) == Equal {
        PathCmpReverse(a[1..], b[1..]);
        if a[1..] == b[1..] {
          assert a == [a[0]] + a[1..] && b == [b[0]] + b[1..];
        }
      }
    }
  }

  /** Path order is transitive. */
  lemma {:induction false} PathCmpTransitive(a: Path, b: Path, c: Path)
    requires PathCmp(a, b) == Less && PathCmp(b, c) == Less
    ensures PathCmp(a, c) == Less
    decreases |a|
  {
    if |a| > 0 && |b| > 0 && |c| > 0 {
      ComponentCmpReverse(a[0], b[0]);
      ComponentCmpReverse(b[0], c[0]);
      ComponentCmpReverse(a[0], c[0]);
      var ab, bc := ComponentCmp(a[0], b[0]), ComponentCmp(b[0], c[0]);
      if ab == Equal && bc == Equal {
        PathCmpTransitive(a[1..], b[1..], c[1..]);
      } else if ab == Less && bc == Less {
        ComponentCmpTransitive(a[0], b[0], c[0]);
      }
    }
  }

  // ---------------------------------------------------------------------
  // Explorer entries

  /** The constructors are listed in their derived `Ord` order. */
  datatype FileType = File | Folder | Root

  datatype FileInfo = FileInfo(fileType: FileType, path: Path)

  /** `FileInfo::cmp`: the root first, then folders before files within one folder, then by path. */
  function Cmp(a: FileInfo, b: FileInfo): (o: Ordering)
    ensures a.fileType == Root ==> o == Less
    ensures a.fileType != Root && a == b ==> o == Equal
    ensures o == Equal ==> a.fileType != Root && b.fileType != Root && a.path == b.path
  {
    if a.fileType == Root then Less
    else if b.fileType == Root then Greater
    else
      var sameParent := ParentPath(a.path).Some? && ParentPath(a.path) == ParentPath(b.path);
      if sameParent && a.fileType == Folder && b.fileType == File then Less
      else if sameParent && a.fileType == File && b.fileType == Folder then Greater
      else PathCmp(a.path, b.path)
  }

  /** `FileInfo::is_parent`: exactly the entries that can have children. */
  function IsParent(f: FileInfo): (r: bool)
    ensures r <==> f.fileType != File
  {
    f.fileType == Folder || f.fileType == Root
  }

  /** A root entry sorts before anything, even another root entry (so `cmp(x, x)` is not Equal for a root). */
  lemma CmpRoot(a: FileInfo, b: FileInfo)
    ensures a.fileType == Root ==> Cmp(a, b) == Less
    ensures a.fileType != Root && b.fileType == Root ==> Cmp(a, b) == Greater
  {
  }

  /** Within one folder, sub-folders come before files. */
  lemma CmpFoldersFirst(a: FileInfo, b: FileInfo)
    requires a.fileType != Root && b.fileType != Root
    requires ParentPath(a.path).Some? && ParentPath(a.path) == ParentPath(b.path)
    ensures a.fileType == Folder && b.fileType == File ==> Cmp(a, b) == Less
    ensures a.fileType == File && b.fileType == Folder ==> Cmp(a, b) == Greater
  {
  }

  /** In every other case the order is plain path order. */
  lemma CmpByPath(a: FileInfo, b: FileInfo)
    requires a.fileType != Root && b.fileType != Root
    requires a.fileType == b.fileType || ParentPath(a.path).None? || ParentPath(a.path) != ParentPath(b.path)
    ensures Cmp(a, b) == PathCmp(a.path, b.path)
  {
  }

  /**
   * On entries other than the root, the order is antisymmetric, reflexive,
   * and Equal only for entries with equal paths.
   */
  lemma CmpAntisymmetric(a: FileInfo, b: FileInfo)
    requires a.fileType != Root && b.fileType != Root
    ensures Cmp(b, a) == Cmp(a, b).Reverse()
    ensures a == b ==> Cmp(a, b) == Equal
    ensures Cmp(a, b) == Equal ==> a.path == b.path
  {
    PathCmpReverse(a.path, b.path);
  }

  /** Among the entries of one folder (what a directory listing sorts), the order is transitive. */
  lemma CmpTransitiveInFolder(a: FileInfo, b: FileInfo, c: FileInfo)
    requires a.fileType != Root && b.fileType != Root && c.fileType != Root
    requires ParentPath(a.path).Some?
    requires ParentPath(a.path) == ParentPath(b.path) == ParentPath(c.path)
    requires Cmp(a, b) == Less && Cmp(b, c) == Less
    ensures Cmp(a, c) == Less
  {
    if a.fileType == b.fileType && b.fileType == c.fileType {
      PathCmpTransitive(a.path, b.path, c.path);
    }
  }

  /**
   * Across folders the order is not transitive: with a file `x/a`, a file
   * `x/a0/f` and a folder `x/b`, each sorts before the next and `x/b` before
   * `x/a`. Listings only ever sort the entries of one folder.
   */
  lemma CmpCycleAcrossFolders()
    ensures var a := FileInfo(File, [Normal("x"), Normal("a")]);
      var c := FileInfo(File, [Normal("x"), Normal("a0"), Normal("f")]);
      var b := FileInfo(Folder, [Normal("x"), Normal("b")]);
      Cmp(a, c) == Less && Cmp(c, b) == Less && Cmp(b, a) == Less
  {
    var a := FileInfo(File, [Normal("x"), Normal("a")]);
    var c := FileInfo(File, [Normal("x"), Normal("a0"), Normal("f")]);
    assert NameCmp("a", "a0") == Less by { assert NameCmp("", "0") == Less; }
    var b := FileInfo(Folder, [Normal("x"), Normal("b")]);
    assert a.path[1..] == [Normal("a")];
    assert c.path[1..] == [Normal("a0"), Normal("f")];
    assert b.path[1..] == [Normal("b")];
    assert PathCmp(a.path, c.path) == Less;
    assert NameCmp("a0", "b") == Less;
    assert PathCmp(c.path, b.path) == Less;
    assert c.path[..2] == [Normal("x"), Normal("a0")];
    assert a.path[..1] == [Normal("x")] && b.path[..1] == [Normal("x")];
    assert ParentPath(c.path) == Some([Normal("x"), Normal("a0")]);
    assert ParentPath(a.path) == Some([Normal("x")]) == ParentPath(b.path);
  }

  // ---------------------------------------------------------------------
  // The explorer's state

  type u16 = x: int | 0 <= x < 0x1_0000

  const MaxHistorySize: nat := 20
  const EditorMinWidth: u16 := 10

  /** `u16::saturating_sub`: the difference when it is not negative, else 0. */
  function SaturatingSub(a: u16, b: u16): (r: u16)
    ensures r <= a
    ensures a >= b ==> r + b == a
    ensures a < b ==> r == 0
  {
    if a >= b then a - b else 0
  }

  /** `u16::saturating_add`: the sum when it fits in 16 bits, else the largest value. */
  function SaturatingAdd(a: u16, b: u16): (r: u16)
    ensures a <= r
    ensures a + b <= 0xFFFF ==> r == a + b
    ensures a + b > 0xFFFF ==> r == 0xFFFF
  {
    if a + b < 0x1_0000 then a + b else 0xFFFF
  }

  function Min(a: int, b: int): int {
    if a <= b then a else b
  }

  /**
   * The width `increase_size` sets: one more, capped so that the editor
   * keeps 10 columns (none, when the area is narrower). The saturating add
   * never shows, and a width already over the cap is pulled down to it.
   */
  function IncreasedWidth(columnWidth: u16, areaWidth: u16): (w: u16)
    ensures w == Min(columnWidth + 1, if areaWidth >= 10 then areaWidth - 10 else 0)
  {
    var cap := SaturatingSub(areaWidth, EditorMinWidth);
    var grown := SaturatingAdd(columnWidth, 1);
    if cap <= grown then cap else grown
  }

  /** The width `decrease_size` sets: one less, never below zero. */
  function DecreasedWidth(columnWidth: u16): (w: u16)
    ensures columnWidth > 0 ==> w + 1 == columnWidth
    ensures columnWidth == 0 ==> w == 0
  {
    SaturatingSub(columnWidth, 1)
  }

  /** `Vec::truncate`: keep at most the first `n` items. */
  function Truncate<X>(s: seq<X>, n: nat): (r: seq<X>)
    ensures |s| <= n ==> r == s
    ensures |s| > n ==> |r| == n && r <= s
  {
    if |s| <= n then s else s[..n]
  }

  /** A push onto a full history is lost: truncation drops the new entry, not the oldest. */
  lemma PushOntoFullHistory<X>(history: seq<X>, x: X)
    requires |history| == MaxHistorySize
    ensures Truncate(history + [x], MaxHistorySize) == history
  {
    assert (history + [x])[..MaxHistorySize] == history;
  }

  datatype State = State(focus: bool, open: bool, currentRoot: Path, areaWidth: u16, filter: string)

  class Explorer<TV> {
    var tree: TV
    var history: seq<TV>
    var showHelp: bool
    var showPreview: bool
    var state: State
    var columnWidth: u16

    ghost predicate Valid()
      reads this
    {
      |history| <= MaxHistorySize
    }

    /** `Explorer::new`, given the tree view built for the root and the configured width. */
    constructor (tree: TV, currentRoot: Path, columnWidth: u16)
      ensures Valid() && this.tree == tree && history == []
      ensures !showHelp && !showPreview && this.columnWidth == columnWidth
      ensures state == State(true, true, currentRoot, 0, "")
    {
      this.tree := tree;
      history := [];
      showHelp := false;
      showPreview := false;
      state := State(true, true, currentRoot, 0, "");
      this.columnWidth := columnWidth;
    }

    method PushHistory(treeView: TV)
      requires Valid()
      modifies this
      ensures Valid()
      ensures history == Truncate(old(history) + [treeView], MaxHistorySize)
      ensures tree == old(tree) && state == old(state) && columnWidth == old(columnWidth)
      ensures showHelp == old(showHelp) && showPreview == old(showPreview)
    {
      history := history + [treeView];
      history := Truncate(history, MaxHistorySize);
    }

    /**
     * `change_root`: nothing when the root is already current; otherwise the
     * tree view built for `root` (`built`, which may have failed) replaces the
     * current one, which goes onto the history.
     */
    method ChangeRoot(root: Path, built: Result<TV, string>) returns (res: Outcome<string>)
      requires Valid()
      modifies this
      ensures Valid()
      ensures showHelp == old(showHelp) && showPreview == old(showPreview) && columnWidth == old(columnWidth)
      ensures old(state.currentRoot) == root ==>
        res == Pass && tree == old(tree) && history == old(history) && state == old(state)
      ensures old(state.currentRoot) != root && built.Err? ==>
        res == Fail(built.error) && tree == old(tree) && history == old(history) && state == old(state)
      ensures old(state.currentRoot) != root && built.Ok? ==>
        && res == Pass && tree == built.value
        && history == Truncate(old(history) + [old(tree)], MaxHistorySize)
        && state == old(state).(currentRoot := root)
    {
      if state.currentRoot == root {
        return Pass;
      }
      if built.Err? {
        return Fail(built.error);
      }
      var oldTree := tree;
      tree := built.value;
      PushHistory(oldTree);
      state := state.(currentRoot := root);
      return Pass;
    }

    /** `go_to_previous_root`: pop the last tree view back; `state.currentRoot` is left as it is. */
    method GoToPreviousRoot()
      requires Valid()
      modifies this
      ensures Valid()
      ensures old(history) == [] ==> tree == old(tree) && history == []
      ensures old(history) != [] ==>
        tree == old(history)[|old(history)| - 1] && history == old(history)[..|old(history)| - 1]
      ensures state == old(state) && columnWidth == old(columnWidth)
      ensures showHelp == old(showHelp) && showPreview == old(showPreview)
    {
      if |history| > 0 {
        tree := history[|history| - 1];
        history := history[..|history| - 1];
      }
    }

    method IncreaseSize()
      modifies this`columnWidth
      ensures columnWidth == IncreasedWidth(old(columnWidth), state.areaWidth)
    {
      columnWidth := IncreasedWidth(columnWidth, state.areaWidth);
    }

    method DecreaseSize()
      modifies this`columnWidth
      ensures columnWidth == DecreasedWidth(old(columnWidth))
    {
      columnWidth := SaturatingSub(columnWidth, 1);
    }

    /** `focus`: focused and open. */
    method Focus()
      modifies this`state
      ensures state == old(state).(focus := true, open := true)
    {
      state := state.(focus := true);
      state := state.(open := true);
    }

    /** `unfocus`: no longer focused, still open. */
    method Unfocus()
      modifies this`state
      ensures state == old(state).(focus := false)
    {
      state := state.(focus := false);
    }

    /** `close`: neither focused nor open. */
    method Close()
      modifies this`state
      ensures state == old(state).(focus := false, open := false)
    {
      state := state.(focus := false);
      state := state.(open := false);
    }

    method ToggleHelp()
      modifies this`showHelp
      ensures showHelp == !old(showHelp)
    {
      showHelp := !showHelp;
    }

    method TogglePreview()
      modifies this`showPreview
      ensures showPreview == !old(showPreview)
    {
      showPreview := !showPreview;
    }
  }

  /** Toggling help or preview twice restores it. */
  method ToggleTwice<TV>(e: Explorer<TV>)
    modifies e
    ensures e.showHelp == old(e.showHelp) && e.showPreview == old(e.showPreview)
  {
    e.ToggleHelp();
    e.ToggleHelp();
    e.TogglePreview();
    e.TogglePreview();
  }

  /**
   * Going back right after a successful root change restores the previous
   * tree view and history, while `state.currentRoot` keeps naming the root
   * that was left.
   */
  method ChangeRootThenGoBack<TV>(e: Explorer<TV>, root: Path, built: TV)
    requires e.Valid() && |e.history| < MaxHistorySize && e.state.currentRoot != root
    modifies e
    ensures e.Valid()
    ensures e.tree == old(e.tree) && e.history == old(e.history)
    ensures e.state == old(e.state).(currentRoot := root)
  {
    var res := e.ChangeRoot(root, Ok(built));
    e.GoToPreviousRoot();
  }
}
