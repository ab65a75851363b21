/**
 * The dimension tracker of src/hooks/useDimensions/index.ts: it resolves a
 * viewport width to a breakpoint label through a threshold table, keeps a
 * `{width, height, size}` record current under an allow-list and an
 * equality-skip policy, and compares the current label with others by rank.
 */
module UseDimensions {
  import opened Functions

  /** A breakpoint label such as "md"; its rank is its position in `sizes`. */
  type Breakpoint = string

  const DEFAULT_BREAK_POINTS: seq<Breakpoint> := ["xs", "sm", "md", "lg", "xl", "xxl"]

  /** The hook's optional argument; a missing field takes its default. */
  datatype DimensionProps = DimensionProps(breakpoints: Option<seq<Breakpoint>>, watchWindowSize: Option<bool>)

  const DEFAULT_PAYLOAD: DimensionProps := DimensionProps(Some(DEFAULT_BREAK_POINTS), Some(false))

  /** The tracked record. */
  datatype Dimensions = Dimensions(width: int, height: int, size: Breakpoint)

  /** The outcome of one resize event. */
  datatype UpdateOutcome =
    | Filtered   // the resolved label is not in the allow-list: nothing happens
    | Unchanged  // the tentative record equals the current one: the old record is kept
    | Committed  // a new record replaces the current one

  predicate NonDecreasing(s: seq<int>)
  {
    forall i, j | 0 <= i <= j < |s| :: s[i] <= s[j]
  }

  predicate Distinct<T(==)>(s: seq<T>)
  {
    forall i, j | 0 <= i < j < |s| :: s[i] != s[j]
  }

  /**
   * What the tracker works with: the threshold table from the context
   * (`sizes` and `widths`), the allow-list and the watch flag.
   */
  datatype Config = Config(sizes: seq<Breakpoint>, widths: seq<int>, breakpoints: seq<Breakpoint>, watchWindowSize: bool)
  {
    /** The threshold table is non-empty, parallel and sorted by width. */
    predicate Valid()
    {
      |sizes| == |widths| > 0 && NonDecreasing(widths)
    }
  }

  /**
   * The configuration the hook derives from its argument: a missing argument
   * is the default payload, missing breakpoints are the default list (an empty
   * list stays empty) and a missing watch flag is false.
   */
  function Configure(payload: Option<DimensionProps>, sizes: seq<Breakpoint>, widths: seq<int>): (c: Config)
    ensures c.sizes == sizes && c.widths == widths
    ensures payload.None? ==> c.breakpoints == DEFAULT_BREAK_POINTS && !c.watchWindowSize
    ensures payload.Some? && payload.value.breakpoints.Some? ==> c.breakpoints == payload.value.breakpoints.value
    ensures payload.Some? && payload.value.breakpoints.None? ==> c.breakpoints == DEFAULT_BREAK_POINTS
    ensures c.watchWindowSize <==> payload.Some? && payload.value.watchWindowSize == Some(true)
  {
    var props := if payload.Some? then payload.value else DEFAULT_PAYLOAD;
    var breakpoints := if props.breakpoints.Some? then props.breakpoints.value else DEFAULT_BREAK_POINTS;
    Config(sizes, widths, breakpoints, props.watchWindowSize == Some(true))
  }

  /** `Array.prototype.indexOf`: the first position of `x` in `s`, or -1. */
  function IndexOf<T(==)>(s: seq<T>, x: T): (r: int)
    ensures -1 <= r < |s|
    ensures r == -1 <==> x !in s
    ensures r >= 0 ==> s[r] == x
    ensures forall j | 0 <= j < r :: s[j] != x
  {
    if |s| == 0 then -1
    else if s[0] == x then 0
    else
      var k := IndexOf(s[1..], x);
      if k == -1 then -1 else k + 1
  }

  lemma IndexOfDistinct<T>(s: seq<T>, i: nat)
    requires Distinct(s) && i < |s|
    ensures IndexOf(s, s[i]) == i
  {
  }

  /** `a` occurs somewhere in `s` with no `b` at or before that position. */
  predicate OccursBefore<T(==)>(s: seq<T>, a: T, b: T)
  {
    exists i | 0 <= i < |s| :: s[i] == a && b !in s[..i + 1]
  }

  /** For two labels of `s`, occurring first is having the smaller `indexOf`. */
  lemma OccursBeforeIffFirstPositions<T>(s: seq<T>, a: T, b: T)
    ensures a in s && b in s ==> (OccursBefore(s, a, b) <==> IndexOf(s, a) < IndexOf(s, b))
  {
    if a in s && b in s {
      var ia, ib := IndexOf(s, a), IndexOf(s, b);
      if ia < ib {
        assert s[ia] == a && b !in s[..ia + 1];
      }
      if OccursBefore(s, a, b) {
        var i :| 0 <= i < |s| && s[i] == a && b !in s[..i + 1];
        assert ia <= i;
        assert s[ib] == b;
      }
    }
  }

  // ---------------------------------------------------------------------------
  // Threshold resolver
  // ---------------------------------------------------------------------------

  /**
   * The index `getSizeOfWindowWidth` reads `sizes` at: the last threshold at
   * or below `width`, or 0 when every threshold is above it.
   */
  function ThresholdIndex(widths: seq<int>, width: int): (i: nat)
    requires |widths| > 0
    ensures i < |widths|
    ensures forall j | i < j < |widths| :: width < widths[j]
    ensures widths[i] <= width || forall j | 0 <= j < |widths| :: width < widths[j]
    ensures (forall j | 0 <= j < |widths| :: width < widths[j]) ==> i == 0
  {
    var indexOfWidth := LastIndexWhere(widths, c => width >= c);
    TakeIf(indexOfWidth > -1, indexOfWidth, 0)
  }

  /**
   * `getSizeOfWindowWidth`: the label of the last threshold at or below
   * `width`, falling back to the first label.
   */
  function SizeOfWindowWidth(sizes: seq<Breakpoint>, widths: seq<int>, width: int): (r: Breakpoint)
    requires |sizes| == |widths| > 0
    ensures (forall j | 0 <= j < |widths| :: width < widths[j]) ==> r == sizes[0]
    ensures forall k | 0 <= k < |widths| && widths[k] <= width && (forall j | k < j < |widths| :: width < widths[j]) ::
      r == sizes[k]
  {
    sizes[ThresholdIndex(widths, width)]
  }

  /** With sorted thresholds, a width below the first one resolves to the first label. */
  lemma BelowFirstThreshold(sizes: seq<Breakpoint>, widths: seq<int>, width: int)
    requires |sizes| == |widths| > 0 && NonDecreasing(widths)
    requires width < widths[0]
    ensures SizeOfWindowWidth(sizes, widths, width) == sizes[0]
  {
  }

  /** A wider viewport never resolves to an earlier threshold. */
  lemma ThresholdIndexMonotone(widths: seq<int>, width1: int, width2: int)
    requires |widths| > 0 && width1 <= width2
    ensures ThresholdIndex(widths, width1) <= ThresholdIndex(widths, width2)
  {
  }

  const EXAMPLE_WIDTHS: seq<int> := [0, 576, 768, 992, 1200, 1400]

  /** The default labels over the thresholds 0, 576, 768, 992, 1200, 1400. */
  lemma ExampleResolutions()
    ensures SizeOfWindowWidth(DEFAULT_BREAK_POINTS, EXAMPLE_WIDTHS, 800) == "md"
    ensures SizeOfWindowWidth(DEFAULT_BREAK_POINTS, EXAMPLE_WIDTHS, 50) == "xs"
    ensures SizeOfWindowWidth(DEFAULT_BREAK_POINTS, EXAMPLE_WIDTHS, 1400) == "xxl"
    ensures SizeOfWindowWidth(DEFAULT_BREAK_POINTS, EXAMPLE_WIDTHS, -1) == "xs"
  {
    assert EXAMPLE_WIDTHS[2] <= 800;
    assert EXAMPLE_WIDTHS[0] <= 50;
    assert EXAMPLE_WIDTHS[5] <= 1400;
  }

  // ---------------------------------------------------------------------------
  // Update policy
  // ---------------------------------------------------------------------------

  /**
   * The record as `isEqualJSON` serialises it. None of its keys is an array
   * index, so they keep the insertion order width, height, size, which every
   * record and every spread copy of it share.
   */
  function ToJSON(d: Dimensions): (json: JsonObject)
    ensures |json| == 3 && json[0].0 == "width" && json[1].0 == "height" && json[2].0 == "size"
    ensures forall i | 0 <= i < |json| :: !IsArrayIndexKey(json[i].0)
  {
    [("width", JsonNumber(d.width)), ("height", JsonNumber(d.height)), ("size", JsonString(d.size))]
  }

  /** Since every record carries its keys in the same order, the JSON test is record equality. */
  lemma EqualJSONIffEqualDimensions(a: Dimensions, b: Dimensions)
    ensures IsEqualJSON(ToJSON(a), ToJSON(b)) <==> a == b
  {
  }

  /** The allow-list test: an empty list lets every label through. */
  predicate Accepts(c: Config, size: Breakpoint)
    ensures Accepts(c, size) <==> |c.breakpoints| == 0 || size in c.breakpoints
  {
    |c.breakpoints| == 0 || IndexOf(c.breakpoints, size) > -1
  }

  /** The copy of `current` the updater builds before comparing. */
  function Tentative(watchWindowSize: bool, current: Dimensions, width: int, height: int, newSize: Breakpoint): (d: Dimensions)
    ensures d.size == newSize
    ensures watchWindowSize ==> d.width == width && d.height == height
    ensures !watchWindowSize ==> d.width == current.width && d.height == current.height
  {
    var copied := current;
    var moved := if watchWindowSize then copied.(width := width, height := height) else copied;
    moved.(size := newSize)
  }

  /** What a resize to `(width, height)` does to the record `current`. */
  function Outcome(c: Config, current: Dimensions, width: int, height: int): (o: UpdateOutcome)
    requires c.Valid()
    ensures var newSize := SizeOfWindowWidth(c.sizes, c.widths, width);
      && (o == Filtered <==> !Accepts(c, newSize))
      && (o == Unchanged <==> Accepts(c, newSize) && Tentative(c.watchWindowSize, current, width, height, newSize) == current)
      && (o == Committed <==> Accepts(c, newSize) && Tentative(c.watchWindowSize, current, width, height, newSize) != current)
  {
    var newSize := SizeOfWindowWidth(c.sizes, c.widths, width);
    if !Accepts(c, newSize) then Filtered
    else if IsEqualJSON(ToJSON(current), ToJSON(Tentative(c.watchWindowSize, current, width, height, newSize))) then Unchanged
    else Committed
  }

  /** The record after a resize to `(width, height)`. */
  function Next(c: Config, current: Dimensions, width: int, height: int): (d: Dimensions)
    requires c.Valid()
    ensures Outcome(c, current, width, height) == Filtered ==> d == current
    ensures Outcome(c, current, width, height) != Filtered ==>
      d == Tentative(c.watchWindowSize, current, width, height, SizeOfWindowWidth(c.sizes, c.widths, width))
  {
    if Outcome(c, current, width, height) == Committed
    then Tentative(c.watchWindowSize, current, width, height, SizeOfWindowWidth(c.sizes, c.widths, width))
    else current
  }

  /** A label outside a non-empty allow-list drops the event: no field changes. */
  lemma FilteredUpdateKeepsState(c: Config, current: Dimensions, width: int, height: int)
    requires c.Valid()
    ensures |c.breakpoints| > 0 && SizeOfWindowWidth(c.sizes, c.widths, width) !in c.breakpoints ==>
      Outcome(c, current, width, height) == Filtered && Next(c, current, width, height) == current
  {
  }

  /** Without the watch flag, width and height never change; only `size` may. */
  lemma FrozenUnlessWatching(c: Config, current: Dimensions, width: int, height: int)
    requires c.Valid() && !c.watchWindowSize
    ensures Next(c, current, width, height).width == current.width
    ensures Next(c, current, width, height).height == current.height
  {
  }

  /**
   * Once the label is accepted, the record holds the resolved label, and with
   * the watch flag also the new width and height.
   */
  lemma AcceptedUpdateTakesResolvedSize(c: Config, current: Dimensions, width: int, height: int)
    requires c.Valid() && Accepts(c, SizeOfWindowWidth(c.sizes, c.widths, width))
    ensures Outcome(c, current, width, height) != Filtered
    ensures Next(c, current, width, height).size == SizeOfWindowWidth(c.sizes, c.widths, width)
    ensures c.watchWindowSize ==> Next(c, current, width, height).width == width
    ensures c.watchWindowSize ==> Next(c, current, width, height).height == height
  {
  }

  /** A new record is committed exactly when it differs from the current one. */
  lemma CommittedIffChanged(c: Config, current: Dimensions, width: int, height: int)
    requires c.Valid()
    ensures Outcome(c, current, width, height) == Committed <==> Next(c, current, width, height) != current
  {
  }

  /** Repeating a resize with the same arguments changes nothing more. */
  lemma UpdateIdempotent(c: Config, current: Dimensions, width: int, height: int)
    requires c.Valid()
    ensures Next(c, Next(c, current, width, height), width, height) == Next(c, current, width, height)
    ensures Outcome(c, Next(c, current, width, height), width, height) != Committed
  {
  }

  /** An allow-list of xs and sm drops a resize to width 800, which resolves to md. */
  lemma AllowListExample(height: int)
    ensures var c := Config(DEFAULT_BREAK_POINTS, EXAMPLE_WIDTHS, ["xs", "sm"], false);
            var current := Dimensions(700, height, "sm");
            Outcome(c, current, 800, height) == Filtered && Next(c, current, 800, height) == current
  {
    ExampleResolutions();
  }

  /** Without the watch flag, a resize to (600, 400) keeps 1024 by 768 and moves lg to sm. */
  lemma FrozenDimensionsExample()
    ensures var c := Config(DEFAULT_BREAK_POINTS, EXAMPLE_WIDTHS, DEFAULT_BREAK_POINTS, false);
            Next(c, Dimensions(1024, 768, "lg"), 600, 400) == Dimensions(1024, 768, "sm")
  {
    var c := Config(DEFAULT_BREAK_POINTS, EXAMPLE_WIDTHS, DEFAULT_BREAK_POINTS, false);
    assert EXAMPLE_WIDTHS[1] <= 600;
    assert SizeOfWindowWidth(DEFAULT_BREAK_POINTS, EXAMPLE_WIDTHS, 600) == "sm";
    assert Accepts(c, "sm");
    assert Tentative(false, Dimensions(1024, 768, "lg"), 600, 400, "sm") == Dimensions(1024, 768, "sm");
  }

  // ---------------------------------------------------------------------------
  // The tracker
  // ---------------------------------------------------------------------------

  /**
   * One live instance of the hook: its configuration and the record it
   * currently holds, which only `UpdateDimensions` replaces.
   */
  class DimensionTracker {
    const config: Config
    var dimensions: Dimensions

    ghost predicate Valid()
    {
      config.Valid()
    }

    /**
     * The initial record: the real viewport when there is one, otherwise the
     * literal fallback `{0, 0, "xxl"}`.
     */
    constructor (payload: Option<DimensionProps>, sizes: seq<Breakpoint>, widths: seq<int>,
                 isBrowser: bool, innerWidth: int, innerHeight: int)
      requires |sizes| == |widths| > 0 && NonDecreasing(widths)
      ensures Valid()
      ensures config == Configure(payload, sizes, widths)
      ensures isBrowser ==> dimensions == Dimensions(innerWidth, innerHeight, SizeOfWindowWidth(sizes, widths, innerWidth))
      ensures !isBrowser ==> dimensions == Dimensions(0, 0, "xxl")
    {
      config := Configure(payload, sizes, widths);
      var initialSize := SizeOfWindowWidth(sizes, widths, if isBrowser then innerWidth else 0);
      if isBrowser {
        dimensions := Dimensions(innerWidth, innerHeight, initialSize);
      } else {
        dimensions := Dimensions(0, 0, "xxl");
      }
    }

    /** `updateDimensions`: resolve, filter, copy and adjust, then commit unless equal. */
    method UpdateDimensions(width: int, height: int) returns (outcome: UpdateOutcome)
      requires Valid()
      modifies this
      ensures outcome == Outcome(config, old(dimensions), width, height)
      ensures dimensions == Next(config, old(dimensions), width, height)
      ensures outcome != Committed ==> dimensions == old(dimensions)
    {
      var newSize := SizeOfWindowWidth(config.sizes, config.widths, width);
      if |config.breakpoints| == 0 || IndexOf(config.breakpoints, newSize) > -1 {
        var oldDimensions := dimensions;
        var newDimensions := oldDimensions;
        if config.watchWindowSize {
          newDimensions := newDimensions.(width := width);
          newDimensions := newDimensions.(height := height);
        }
        newDimensions := newDimensions.(size := newSize);
        if IsEqualJSON(ToJSON(oldDimensions), ToJSON(newDimensions)) {
          outcome := Unchanged;
        } else {
          dimensions := newDimensions;
          outcome := Committed;
        }
      } else {
        outcome := Filtered;
      }
    }

    // -------------------------------------------------------------------------
    // Ordinal comparison engine
    // -------------------------------------------------------------------------

    /** The ranks of the current label and of `size` in `sizes`, -1 for an unknown label. */
    function CurrentAndRequestedSizeIndex(size: Breakpoint): (r: (int, int))
      reads this
      ensures -1 <= r.0 < |config.sizes| && -1 <= r.1 < |config.sizes|
      ensures r.0 == -1 <==> dimensions.size !in config.sizes
      ensures r.1 == -1 <==> size !in config.sizes
      ensures r.0 >= 0 ==> config.sizes[r.0] == dimensions.size
      ensures r.1 >= 0 ==> config.sizes[r.1] == size
      ensures forall j | 0 <= j < r.0 :: config.sizes[j] != dimensions.size
      ensures forall j | 0 <= j < r.1 :: config.sizes[j] != size
    {
      (IndexOf(config.sizes, dimensions.size), IndexOf(config.sizes, size))
    }

    /** Never both this and `IsSizeSmallerThan`, and always one of them. */
    predicate IsSizeEqualOrLargerThan(size: Breakpoint)
      reads this
      ensures IsSizeEqualOrLargerThan(size) <==> !IsSizeSmallerThan(size)
    {
      var (indexOfCurrentSize, indexOfSize) := CurrentAndRequestedSizeIndex(size);
      indexOfCurrentSize >= indexOfSize
    }

    /**
     * The current label is known, and `size` is unknown or occurs before the
     * first occurrence of the current label.
     */
    predicate IsSizeLargerThan(size: Breakpoint)
      reads this
      ensures IsSizeLargerThan(size) <==>
        dimensions.size in config.sizes && (size !in config.sizes || OccursBefore(config.sizes, size, dimensions.size))
    {
      OccursBeforeIffFirstPositions(config.sizes, size, dimensions.size);
      var (indexOfCurrentSize, indexOfSize) := CurrentAndRequestedSizeIndex(size);
      indexOfCurrentSize > indexOfSize
    }

    /** The same label, or two labels that are both unknown. */
    predicate IsSizeEqualTo(size: Breakpoint)
      reads this
      ensures IsSizeEqualTo(size) <==>
        size == dimensions.size || (size !in config.sizes && dimensions.size !in config.sizes)
    {
      var (indexOfCurrentSize, indexOfSize) := CurrentAndRequestedSizeIndex(size);
      indexOfCurrentSize == indexOfSize
    }

    /**
     * `size` is known, and the current label is unknown or occurs before the
     * first occurrence of `size`.
     */
    predicate IsSizeSmallerThan(size: Breakpoint)
      reads this
      ensures IsSizeSmallerThan(size) <==>
        size in config.sizes && (dimensions.size !in config.sizes || OccursBefore(config.sizes, dimensions.size, size))
    {
      OccursBeforeIffFirstPositions(config.sizes, dimensions.size, size);
      var (indexOfCurrentSize, indexOfSize) := CurrentAndRequestedSizeIndex(size);
      indexOfCurrentSize < indexOfSize
    }

    /** Never both this and `IsSizeLargerThan`, and always one of them. */
    predicate IsSizeEqualOrSmallerThan(size: Breakpoint)
      reads this
      ensures IsSizeEqualOrSmallerThan(size) <==> !IsSizeLargerThan(size)
    {
      var (indexOfCurrentSize, indexOfSize) := CurrentAndRequestedSizeIndex(size);
      indexOfCurrentSize <= indexOfSize
    }

    /**
     * For known labels exactly one of equal, larger and smaller holds, equal
     * means the same label, and the two inclusive predicates are the unions.
     */
    lemma OrdinalConsistency(size: Breakpoint)
      requires dimensions.size in config.sizes && size in config.sizes
      ensures IsSizeEqualTo(size) || IsSizeLargerThan(size) || IsSizeSmallerThan(size)
      ensures !(IsSizeEqualTo(size) && IsSizeLargerThan(size))
      ensures !(IsSizeEqualTo(size) && IsSizeSmallerThan(size))
      ensures !(IsSizeLargerThan(size) && IsSizeSmallerThan(size))
      ensures IsSizeEqualTo(size) <==> size == dimensions.size
      ensures IsSizeEqualOrLargerThan(size) <==> IsSizeLargerThan(size) || IsSizeEqualTo(size)
      ensures IsSizeEqualOrSmallerThan(size) <==> IsSizeSmallerThan(size) || IsSizeEqualTo(size)
    {
    }

    /** With distinct labels, the predicates compare positions in `sizes`. */
    lemma RankOrder(i: nat, j: nat)
      requires Distinct(config.sizes) && i < |config.sizes| && j < |config.sizes|
      requires dimensions.size == config.sizes[i]
      ensures IsSizeLargerThan(config.sizes[j]) <==> i > j
      ensures IsSizeEqualTo(config.sizes[j]) <==> i == j
      ensures IsSizeSmallerThan(config.sizes[j]) <==> i < j
    {
    }

    /** A queried label missing from `sizes` ranks -1, below every known label. */
    lemma UnknownSizeRanksLowest(size: Breakpoint)
      requires size !in config.sizes
      ensures IsSizeLargerThan(size) <==> dimensions.size in config.sizes
      ensures IsSizeEqualTo(size) <==> dimensions.size !in config.sizes
      ensures IsSizeEqualOrLargerThan(size)
      ensures !IsSizeSmallerThan(size)
    {
    }
  }
}
