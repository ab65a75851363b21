/**
 * The helpers of src/utils/functions.tsx: a conditional select, an equality
 * test on JSON-serialisable objects and a backward linear search.
 */
module Functions {

  /** An argument a JavaScript caller may leave out (`undefined` or another falsy value). */
  datatype Option<T> = None | Some(value: T)

  // ---------------------------------------------------------------------------
  // takeIf
  // ---------------------------------------------------------------------------

  /** `takeIf`: `value` when `condition` holds, `defaultValue` otherwise. */
  function TakeIf<T>(condition: bool, value: T, defaultValue: T): (r: T)
    ensures condition ==> r == value
    ensures !condition ==> r == defaultValue
  {
    if condition then value else defaultValue
  }

  // ---------------------------------------------------------------------------
  // isEqualJSON
  // ---------------------------------------------------------------------------

  /** The values a serialised record can hold in this system. */
  datatype JsonValue = JsonNumber(number: int) | JsonString(text: string)

  /**
   * A key JavaScript treats as an array index: a string of decimal digits
   * without a leading zero. `JSON.stringify` writes such keys first, in
   * numeric order, and every other key in insertion order. (Digit strings of
   * 2^32 - 1 and above are not array indices; counting them here only makes
   * the predicate exclude more keys.)
   */
  predicate IsArrayIndexKey(key: string)
  {
    && |key| > 0
    && (forall i | 0 <= i < |key| :: '0' <= key[i] <= '9')
    && (key[0] == '0' ==> |key| == 1)
  }

  /**
   * A plain object as `JSON.stringify` sees it: its own keys with their values,
   * in the order the serialisation writes them. For an object without
   * array-index keys that order is insertion order.
   */
  type JsonObject = seq<(string, JsonValue)>

  /**
   * `isEqualJSON`: the two objects serialise to the same text, which happens
   * exactly when they list the same keys at the same positions with the same
   * values.
   */
  predicate IsEqualJSON(json1: JsonObject, json2: JsonObject)
    ensures IsEqualJSON(json1, json2) <==>
      |json1| == |json2| && forall i | 0 <= i < |json1| :: json1[i].0 == json2[i].0 && json1[i].1 == json2[i].1
  {
    json1 == json2
  }

  lemma IsEqualJSONReflexive(json: JsonObject)
    ensures IsEqualJSON(json, json)
  {
  }

  lemma IsEqualJSONSymmetric(json1: JsonObject, json2: JsonObject)
    ensures IsEqualJSON(json1, json2) <==> IsEqualJSON(json2, json1)
  {
  }

  lemma IsEqualJSONTransitive(json1: JsonObject, json2: JsonObject, json3: JsonObject)
    requires IsEqualJSON(json1, json2) && IsEqualJSON(json2, json3)
    ensures IsEqualJSON(json1, json3)
  {
  }

  /**
   * For keys that are not array indices, the comparison is sensitive to
   * insertion order: the same two entries inserted in the opposite order do
   * not compare equal.
   */
  lemma IsEqualJSONSeesKeyOrder(key1: string, key2: string, value1: JsonValue, value2: JsonValue)
    requires key1 != key2 && !IsArrayIndexKey(key1) && !IsArrayIndexKey(key2)
    ensures !IsEqualJSON([(key1, value1), (key2, value2)], [(key2, value2), (key1, value1)])
  {
  }

  // ---------------------------------------------------------------------------
  // findLastIndex
  // ---------------------------------------------------------------------------

  /**
   * The highest index of `s` whose element satisfies `p`, or -1 when none does.
   * This is the specification `FindLastIndex` is proved against.
   */
  function LastIndexWhere<T>(s: seq<T>, p: T -> bool): (r: int)
    ensures -1 <= r < |s|
    ensures r >= 0 ==> p(s[r])
    ensures forall j | r < j < |s| :: !p(s[j])
  {
    if |s| == 0 then -1
    else if p(s[|s| - 1]) then |s| - 1
    else LastIndexWhere(s[..|s| - 1], p)
  }

  /**
   * `findLastIndex`: a missing array gives -1, a missing test predicate gives the
   * last index, otherwise the array is scanned from its end towards index 0.
   */
  method FindLastIndex<T>(elements: Option<seq<T>>, test: Option<T -> bool>) returns (index: int)
    ensures elements.None? ==> index == -1
    ensures elements.Some? && test.None? ==> index == |elements.value| - 1
    ensures elements.Some? && test.Some? ==> index == LastIndexWhere(elements.value, test.value)
  {
    if elements.None? {
      return -1;
    }
    var a := elements.value;
    index := |a| - 1;
    if test.None? {
      return;
    }
    var p := test.value;
    var i := index;
    while i > -1
      invariant -1 <= i < |a|
      invariant LastIndexWhere(a[..i + 1], p) == LastIndexWhere(a, p)
    {
      if p(a[i]) {
        return i;
      }
      assert a[..i + 1][..i] == a[..i];
      i := i - 1;
    }
    return -1;
  }
}
