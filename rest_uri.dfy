/**
 * `RestUri`, the request-target builder: a fixed base path, an ordered list
 * of path segments and an insertion-ordered map of query arguments, rendered
 * as `base/segment1/segment2...?pair1&pair2...`.
 *
 * The builder is reproduced as written, quirks included: an array argument
 * keeps only its last element, and every query pair is rendered value first
 * (`encodeURI(value)=encodeURI(key)`), because `Map.prototype.forEach`
 * hands its callback the value before the key.
 */
module RestUris {
  import opened JsValues
  import opened UriEncoding
  import opened Texts

  predicate Distinct(keys: seq<string>) {
    forall i, j :: 0 <= i < j < |keys| ==> keys[i] != keys[j]
  }

  /** A JavaScript `Map<string, any>`: its entries and the order the keys were first set in. */
  datatype JsMap = JsMap(order: seq<string>, entries: map<string, Value>)
  {
    ghost predicate Valid() {
      && (forall k :: k in entries <==> k in order)
      && Distinct(order)
    }

    /**
     * `map.set(key, value)`: the key now maps to the value and no other key
     * changes; a new key goes to the end of the order, a key that is already
     * there keeps its place.
     */
    function Set(key: string, value: Value): (m: JsMap)
      requires Valid()
      ensures m.Valid()
      ensures key in m.entries && m.entries[key] == value
      ensures forall k :: k != key ==> (k in m.entries <==> k in entries)
      ensures forall k :: k != key && k in entries ==> m.entries[k] == entries[k]
      ensures key in entries ==> m.order == order
      ensures key !in entries ==> m.order == order + [key]
    {
      if key in entries then JsMap(order, entries[key := value])
      else JsMap(order + [key], entries[key := value])
    }
  }

  const EmptyMap: JsMap := JsMap([], map[])

  /** Setting a key twice is the same as setting it once to the second value. */
  lemma SetTwice(m: JsMap, key: string, a: Value, b: Value)
    requires m.Valid()
    ensures m.Set(key, a).Set(key, b) == m.Set(key, b)
  {
  }

  /** `values.forEach(v => map.set(key, v))`, one `set` per element in order. */
  function SetEach(m: JsMap, key: string, values: seq<Value>): (r: JsMap)
    requires m.Valid()
    ensures r.Valid()
  {
    if values == [] then m else SetEach(m, key, values[..|values| - 1]).Set(key, values[|values| - 1])
  }

  /** Setting a key once per element leaves it mapped to the last element, as one `set` would. */
  lemma {:induction false} SetEachKeepsLast(m: JsMap, key: string, values: seq<Value>)
    requires m.Valid()
    ensures SetEach(m, key, values) == if values == [] then m else m.Set(key, values[|values| - 1])
  {
    if |values| > 1 {
      var front := values[..|values| - 1];
      SetEachKeepsLast(m, key, front);
      SetTwice(m, key, front[|front| - 1], values[|values| - 1]);
    }
  }

  /** The effect of `setArg(key, value)` on the argument map. */
  function SetArgEffect(m: JsMap, key: string, value: Value): (r: JsMap)
    requires m.Valid()
    ensures r.Valid()
    ensures r.entries.Keys == m.entries.Keys + (if value.IsNullish() || value == Arr([]) then {} else {key})
    ensures r.entries - {key} == m.entries - {key}
    ensures |m.order| <= |r.order| && r.order[..|m.order|] == m.order
  {
    if value.IsNullish() then m
    else if value == Arr([]) then SetEach(m, key, [])
    else if value.Arr? then
      SetEachKeepsLast(m, key, value.items);
      SetShape(m, key, value.items[|value.items| - 1]);
      SetEach(m, key, value.items)
    else
      SetShape(m, key, value);
      m.Set(key, value)
  }

  /** `map.set` adds at most its key, changes no other entry and keeps the earlier order as a prefix. */
  lemma SetShape(m: JsMap, key: string, value: Value)
    requires m.Valid()
    ensures m.Set(key, value).entries.Keys == m.entries.Keys + {key}
    ensures m.Set(key, value).entries - {key} == m.entries - {key}
    ensures |m.order| <= |m.Set(key, value).order| && m.Set(key, value).order[..|m.order|] == m.order
  {
  }


  /**
   * `setArg` in closed form: `null`/`undefined` and the empty array change
   * nothing, a non-empty array acts as its last element, and any other
   * value is set under the key.
   */
  lemma SetArgCases(m: JsMap, key: string, value: Value)
    requires m.Valid()
    ensures value.IsNullish() ==> SetArgEffect(m, key, value) == m
    ensures value.Arr? && value.items == [] ==> SetArgEffect(m, key, value) == m
    ensures value.Arr? && value.items != [] ==>
      SetArgEffect(m, key, value) == m.Set(key, value.items[|value.items| - 1])
    ensures !value.IsNullish() && !value.Arr? ==> SetArgEffect(m, key, value) == m.Set(key, value)
  {
    if value.Arr? {
      SetEachKeepsLast(m, key, value.items);
    }
  }

  /** `parts.map(p => encodeURI(p))`. */
  function EncodedParts(parts: seq<string>): (r: seq<string>)
    ensures |r| == |parts|
    ensures forall i :: 0 <= i < |parts| ==> r[i] == EncodeUri(parts[i])
  {
    seq(|parts|, i requires 0 <= i < |parts| => EncodeUri(parts[i]))
  }

  /** The path: the base, then `/` and the encoding of each segment in order. */
  function Path(base: string, parts: seq<string>): string {
    Join([base] + EncodedParts(parts), "/")
  }

  /** One rendered query pair, value first, as the code writes it. */
  function QueryPair(key: string, value: Value): string {
    EncodeUri(ToString(value)) + "=" + EncodeUri(key)
  }

  /** The pairs, one per map entry, in the map's insertion order. */
  function QueryPairs(m: JsMap): (r: seq<string>)
    requires m.Valid()
    ensures |r| == |m.order|
    ensures forall i :: 0 <= i < |m.order| ==>
      m.order[i] in m.entries && r[i] == EncodeUri(ToString(m.entries[m.order[i]])) + "=" + EncodeUri(m.order[i])
  {
    seq(|m.order|, i requires 0 <= i < |m.order| => QueryPair(m.order[i], m.entries[m.order[i]]))
  }

  /** What `str()` renders. */
  function Target(base: string, parts: seq<string>, args: JsMap): (t: string)
    requires args.Valid()
    ensures |Path(base, parts)| <= |t| && t[..|Path(base, parts)|] == Path(base, parts)
    ensures |t| == |Path(base, parts)| <==> |args.order| == 0
    ensures |args.order| > 0 ==> t[|Path(base, parts)|] == '?'
  {
    Path(base, parts) + (if |args.order| == 0 then "" else "?" + Join(QueryPairs(args), "&"))
  }

  /** The `forEach` of `str()`: one pair per entry, pushed in insertion order. */
  method RenderArgs(args: JsMap) returns (urlParams: seq<string>)
    requires args.Valid()
    ensures urlParams == QueryPairs(args)
  {
    urlParams := [];
    for j := 0 to |args.order|
      invariant |urlParams| == j
      invariant forall k :: 0 <= k < j ==>
        args.order[k] in args.entries &&
        urlParams[k] == EncodeUri(ToString(args.entries[args.order[k]])) + "=" + EncodeUri(args.order[k])
    {
      var key := args.order[j];
      assert key in args.entries;
      urlParams := urlParams + [EncodeUri(ToString(args.entries[key])) + "=" + EncodeUri(key)];
    }
  }

  /** Without segments the path is the base alone. */
  lemma PathOfBase(base: string)
    ensures Path(base, []) == base
  {
    assert [base] + EncodedParts([]) == [base];
  }

  /** Each added segment extends the path by `/` and its encoding. */
  lemma PathAppend(base: string, parts: seq<string>, part: string)
    ensures Path(base, parts + [part]) == Path(base, parts) + "/" + EncodeUri(part)
  {
    var xs := [base] + EncodedParts(parts);
    assert [base] + EncodedParts(parts + [part]) == xs + [EncodeUri(part)];
    JoinAppend(xs, EncodeUri(part), "/");
  }

  /**
   * A segment of letters and digits, such as `details` or `filter`, is
   * appended to the path as it is.
   */
  lemma PlainSegmentInPath(base: string, parts: seq<string>, part: string)
    requires forall i :: 0 <= i < |part| ==> IsAlphaNum(part[i])
    ensures Path(base, parts + [part]) == Path(base, parts) + "/" + part
  {
    PathAppend(base, parts, part);
  }

  /** Some segment of `parts` holds a `?`. */
  predicate SegmentHasQuestionMark(parts: seq<string>) {
    exists i :: 0 <= i < |parts| && '?' in parts[i]
  }

  lemma SegmentHasQuestionMarkAppend(front: seq<string>, last: string)
    ensures SegmentHasQuestionMark(front + [last]) <==> SegmentHasQuestionMark(front) || '?' in last
  {
    var parts := front + [last];
    if SegmentHasQuestionMark(parts) {
      var i :| 0 <= i < |parts| && '?' in parts[i];
      if i < |front| { assert parts[i] == front[i]; }
    }
    if SegmentHasQuestionMark(front) {
      var i :| 0 <= i < |front| && '?' in front[i];
      assert parts[i] == front[i];
    }
    if '?' in last {
      assert parts[|front|] == last;
    }
  }

  /** The path contains a `?` only if the base or a segment does: `encodeURI` keeps `?`. */
  lemma {:induction false} QuestionMarkInPath(base: string, parts: seq<string>)
    ensures '?' in Path(base, parts) <==> '?' in base || SegmentHasQuestionMark(parts)
    decreases |parts|
  {
    if parts == [] {
      PathOfBase(base);
    } else {
      var front, last := parts[..|parts| - 1], parts[|parts| - 1];
      assert front + [last] == parts;
      QuestionMarkInPath(base, front);
      PathAppend(base, front, last);
      DelimiterInEncoding(Uri, last, '?');
      SegmentHasQuestionMarkAppend(front, last);
    }
  }

  /** The target is the path alone when no argument is set, and the path, `?` and the pairs otherwise. */
  lemma TargetShape(base: string, parts: seq<string>, args: JsMap)
    requires args.Valid()
    ensures |args.order| == 0 ==> Target(base, parts, args) == Path(base, parts)
    ensures |args.order| > 0 ==>
      Target(base, parts, args) == Path(base, parts) + "?" + Join(QueryPairs(args), "&")
  {
  }

  /** When neither the base nor a segment holds a `?`, the target holds one exactly when an argument is set. */
  lemma QuestionMarkIffArgs(base: string, parts: seq<string>, args: JsMap)
    requires args.Valid()
    requires '?' !in base && !SegmentHasQuestionMark(parts)
    ensures '?' in Target(base, parts, args) <==> |args.order| > 0
  {
    var p := Path(base, parts);
    TargetShape(base, parts, args);
    if |args.order| == 0 {
      QuestionMarkInPath(base, parts);
      assert '?' !in p;
    } else {
      var t := p + "?" + Join(QueryPairs(args), "&");
      assert t[|p|] == '?';
      assert '?' in t;
    }
  }

  /**
   * The query pairs: as many as entries, in insertion order, each rendered
   * value first.  When no key and no rendered value holds a `&`, splitting
   * the query at `&` gives back exactly these pairs.
   */
  lemma QueryPairsSplit(args: JsMap)
    requires args.Valid() && |args.order| > 0
    requires forall k :: k in args.entries ==> '&' !in k && '&' !in ToString(args.entries[k])
    ensures Split(Join(QueryPairs(args), "&"), '&') == QueryPairs(args)
  {
    var pairs := QueryPairs(args);
    forall i | 0 <= i < |pairs| ensures '&' !in pairs[i] {
      var k := args.order[i];
      assert k in args.entries;
      DelimiterInEncoding(Uri, k, '&');
      DelimiterInEncoding(Uri, ToString(args.entries[k]), '&');
    }
    SplitJoin(pairs, '&');
  }

  /** The builder object.  `parts` and `args` are changed in place by its methods. */
  class RestUri {
    const base: string
    var parts: seq<string>
    var args: JsMap

    ghost predicate Valid()
      reads this
    {
      args.Valid()
    }

    /** `new RestUri(base, ...parts)`: the given segments in order, no arguments. */
    constructor (base: string, initialParts: seq<string>)
      ensures Valid()
      ensures this.base == base && parts == initialParts && args == EmptyMap
    {
      this.base := base;
      parts := [];
      args := EmptyMap;
      new;
      for i := 0 to |initialParts|
        invariant parts == initialParts[..i]
        invariant args == EmptyMap
      {
        parts := parts + [initialParts[i]];
      }
    }

    /** `addPart(part)`: appends one segment and returns the same builder. */
    method AddPart(part: string) returns (self: RestUri)
      requires Valid()
      modifies this
      ensures self == this && Valid()
      ensures parts == old(parts) + [part]
      ensures args == old(args)
    {
      parts := parts + [part];
      self := this;
    }

    /** `setArg(key, value)`: see `SetArgEffect` and `SetArgCases`; returns the same builder. */
    method SetArg(key: string, value: Value) returns (self: RestUri)
      requires Valid()
      modifies this
      ensures self == this && Valid()
      ensures parts == old(parts)
      ensures args == SetArgEffect(old(args), key, value)
    {
      ghost var before := args;
      if !value.IsNullish() {
        if value.Arr? {
          var items := value.items;
          var i := 0;
          while i < |items|
            invariant 0 <= i <= |items|
            invariant args.Valid() && parts == old(parts)
            invariant args == SetEach(old(args), key, items[..i])
          {
            assert items[..i + 1][..i] == items[..i];
            args := args.Set(key, items[i]);
            i := i + 1;
          }
          assert items[..|items|] == items;
          assert args == SetEach(before, key, items);
        } else {
          args := args.Set(key, value);
        }
      }
      assert args == SetArgEffect(before, key, value);
      self := this;
    }

    /** `str()`: renders the target. */
    method Str() returns (url: string)
      requires Valid()
      ensures url == Target(base, parts, args)
    {
      var base, parts, args := this.base, this.parts, this.args;
      var encoded := seq(|parts|, i requires 0 <= i < |parts| => EncodeUri(parts[i]));
      url := Join([base] + encoded, "/");
      var urlParams := RenderArgs(args);
      if |urlParams| > 0 {
        url := url + "?" + Join(urlParams, "&");
      }
    }
  }
}
