/**
 * How a server reads the query of a request target: the text after `?` is
 * cut at the first `#` (the fragment is never sent), the rest is split at
 * every `&`, empty pieces are skipped, each piece is split at its first `=`
 * into a name and a value, and both sides are percent-decoded
 * (`decodeURIComponent`).  This reader is the yardstick for the two ways the
 * builder renders its arguments: as written (each pair value first, through
 * `encodeURI`, which keeps `&` and `=`) and as evidently intended (name
 * first, through `encodeURIComponent`, one pair per element of an array).
 */
module QueryStrings {
  import opened Wrappers
  import opened JsValues
  import opened UriEncoding
  import opened Texts
  import opened RestUris
  import opened CrucibleApi

  /** One name/value pair of a query, in decoded form. */
  type Entry = (string, string)

  /** A piece split at its first `=`; a piece without `=` is a name with an empty value. */
  function SplitPair(piece: string): (pair: Entry)
    ensures '=' !in piece ==> pair == (piece, "")
  {
    if piece == [] then ("", "")
    else if piece[0] == '=' then ("", piece[1..])
    else
      var rest := SplitPair(piece[1..]);
      assert [piece[0]] + piece[1..] == piece;
      ([piece[0]] + rest.0, rest.1)
  }

  /** A name without `=`, then `=`, then any value: the split gives both back. */
  lemma {:induction false} SplitPairAtFirst(name: string, value: string)
    requires '=' !in name
    ensures SplitPair(name + "=" + value) == (name, value)
  {
    if name != [] {
      SplitPairAtFirst(name[1..], value);
      assert (name + "=" + value)[1..] == name[1..] + "=" + value;
      assert [name[0]] + name[1..] == name;
    }
  }

  /** The pieces decoded in order; `None` when some side is not a valid percent-encoding. */
  function DecodePairs(pieces: seq<string>): (r: Option<seq<Entry>>)
    ensures r.Some? ==> |r.value| <= |pieces|
  {
    if pieces == [] then Some([])
    else
      var piece := pieces[|pieces| - 1];
      match DecodePairs(pieces[..|pieces| - 1])
      case None => None
      case Some(front) =>
        if piece == [] then Some(front)
        else
          var pair := SplitPair(piece);
          match (Decode(pair.0), Decode(pair.1))
          case (Some(name), Some(value)) => Some(front + [(name, value)])
          case _ => None
  }

  /**
   * The part of the text after `?` that reaches a server: everything before
   * the first `#`, which starts the fragment (section 3.4 of RFC 3986).
   */
  function QueryPart(text: string): (q: string)
    ensures |q| <= |text| && q == text[..|q|]
    ensures '#' !in q
    ensures '#' !in text ==> q == text
  {
    if text == [] || text[0] == '#' then []
    else
      var rest := QueryPart(text[1..]);
      assert [text[0]] + text[1..] == text;
      [text[0]] + rest
  }

  /** The entries a server reads from the text after `?`. */
  function ParseQuery(text: string): Option<seq<Entry>> {
    DecodePairs(Split(QueryPart(text), '&'))
  }

  /** Rendered pairs whose encoding leaves no `#` make a query with no fragment. */
  lemma NoFragmentInRendered(mode: Mode, entries: seq<Entry>)
    requires forall i :: 0 <= i < |entries| ==>
      !Keeps(mode, '#') || ('#' !in entries[i].0 && '#' !in entries[i].1)
    ensures '#' !in Join(RenderPairs(mode, entries), "&")
  {
    var pairs := RenderPairs(mode, entries);
    forall i | 0 <= i < |pairs| ensures '#' !in pairs[i] {
      DelimiterInEncoding(mode, entries[i].0, '#');
      DelimiterInEncoding(mode, entries[i].1, '#');
    }
    NotInJoin(pairs, "&", '#');
  }

  /** Each entry encoded with `mode` on both sides and joined by `=`. */
  function RenderPairs(mode: Mode, entries: seq<Entry>): (pairs: seq<string>)
    ensures |pairs| == |entries|
  {
    seq(|entries|, i requires 0 <= i < |entries| => Encode(mode, entries[i].0) + "=" + Encode(mode, entries[i].1))
  }

  /** One rendered pair is a non-empty piece that splits and decodes back to its entry. */
  lemma ReadRenderedPair(mode: Mode, e: Entry)
    requires !Keeps(mode, '=') || '=' !in e.0
    ensures var name, value := Encode(mode, e.0), Encode(mode, e.1);
      && name + "=" + value != []
      && SplitPair(name + "=" + value) == (name, value)
      && Decode(name) == Some(e.0) && Decode(value) == Some(e.1)
  {
    var name, value := Encode(mode, e.0), Encode(mode, e.1);
    assert (name + "=" + value)[|name|] == '=';
    DelimiterInEncoding(mode, e.0, '=');
    SplitPairAtFirst(name, value);
    DecodeEncode(mode, e.0);
    DecodeEncode(mode, e.1);
  }

  /**
   * Rendered pairs read back as the entries they came from, provided the
   * encoding leaves no `=` in a name (`encodeURIComponent` never does;
   * `encodeURI` keeps `=`, so the name must be free of it).
   */
  lemma {:induction false} DecodeRenderedPairs(mode: Mode, entries: seq<Entry>)
    requires forall i :: 0 <= i < |entries| ==> !Keeps(mode, '=') || '=' !in entries[i].0
    ensures DecodePairs(RenderPairs(mode, entries)) == Some(entries)
  {
    if entries != [] {
      var n := |entries|;
      var front, last := entries[..n - 1], entries[n - 1];
      var pieces := RenderPairs(mode, entries);
      assert pieces[..n - 1] == RenderPairs(mode, front);
      assert pieces[n - 1] == Encode(mode, last.0) + "=" + Encode(mode, last.1);
      DecodeRenderedPairs(mode, front);
      ReadRenderedPair(mode, last);
      assert entries == front + [last];
    }
  }

  /** Pairs without `&` survive the split of their join, each as one piece. */
  lemma SplitRenderedPairs(mode: Mode, entries: seq<Entry>)
    requires |entries| >= 1
    requires forall i :: 0 <= i < |entries| ==>
      !Keeps(mode, '&') || ('&' !in entries[i].0 && '&' !in entries[i].1)
    ensures Split(Join(RenderPairs(mode, entries), "&"), '&') == RenderPairs(mode, entries)
  {
    var pairs := RenderPairs(mode, entries);
    forall i | 0 <= i < |pairs| ensures '&' !in pairs[i] {
      DelimiterInEncoding(mode, entries[i].0, '&');
      DelimiterInEncoding(mode, entries[i].1, '&');
    }
    SplitJoin(pairs, '&');
  }

  /*********************** As written ***********************/

  /** The entries of an argument map as the builder renders them: value in the name's place and name in the value's. */
  function Swapped(args: JsMap): (entries: seq<Entry>)
    requires args.Valid()
    ensures |entries| == |args.order|
  {
    seq(|args.order|, i requires 0 <= i < |args.order| =>
      (ToString(args.entries[args.order[i]]), args.order[i]))
  }

  /**
   * The query the builder renders is read back with every name and value
   * exchanged: `setArg('term', 'x')` reaches the server as an argument
   * named `x` whose value is `term`.  (When a name or a rendered value holds
   * `&` or `=`, the reading is worse still, since `encodeURI` keeps both.)
   */
  lemma ValueFirstMisread(args: JsMap)
    requires args.Valid() && |args.order| > 0
    requires forall k :: k in args.entries ==>
      '&' !in k && '=' !in k && '#' !in k
    requires forall k :: k in args.entries ==>
      '&' !in ToString(args.entries[k]) && '=' !in ToString(args.entries[k]) && '#' !in ToString(args.entries[k])
    ensures ParseQuery(Join(QueryPairs(args), "&")) == Some(Swapped(args))
  {
    var entries := Swapped(args);
    assert QueryPairs(args) == RenderPairs(Uri, entries);
    forall i | 0 <= i < |entries|
      ensures '&' !in entries[i].0 && '&' !in entries[i].1 && '=' !in entries[i].0
      ensures '#' !in entries[i].0 && '#' !in entries[i].1
    {
      assert args.order[i] in args.entries;
    }
    NoFragmentInRendered(Uri, entries);
    SplitRenderedPairs(Uri, entries);
    DecodeRenderedPairs(Uri, entries);
  }

  /** The smallest case: one string argument. */
  lemma OneArgumentMisread(key: string, value: string)
    requires '&' !in key && '=' !in key && '#' !in key
    requires '&' !in value && '=' !in value && '#' !in value
    ensures ParseQuery(Join(QueryPairs(JsMap([key], map[key := Str(value)])), "&")) == Some([(value, key)])
    ensures key != value ==> ParseQuery(Join(QueryPairs(JsMap([key], map[key := Str(value)])), "&")) != Some([(key, value)])
  {
    var args := JsMap([key], map[key := Str(value)]);
    ValueFirstMisread(args);
    assert Swapped(args) == [(value, key)];
  }

  /*********************** As intended ***********************/

  /** The query with each pair name first, both sides through `encodeURIComponent`. */
  function IntendedQuery(entries: seq<Entry>): string {
    Join(RenderPairs(Component, entries), "&")
  }

  /** The empty query reads back as no entries. */
  lemma ParseEmptyQuery()
    ensures ParseQuery("") == Some([])
  {
    assert Split("", '&') == [""];
    assert [""][..0] == [];
  }

  /** Every intended query reads back as exactly its entries, in order, whatever characters they hold. */
  lemma ParseIntendedQuery(entries: seq<Entry>)
    ensures ParseQuery(IntendedQuery(entries)) == Some(entries)
  {
    var pairs := RenderPairs(Component, entries);
    if entries == [] {
      assert pairs == [];
      ParseEmptyQuery();
    } else {
      assert !Keeps(Component, '&') && !Keeps(Component, '=') && !Keeps(Component, '#');
      NoFragmentInRendered(Component, entries);
      SplitRenderedPairs(Component, entries);
      DecodeRenderedPairs(Component, entries);
      calc {
        ParseQuery(IntendedQuery(entries));
        DecodePairs(Split(QueryPart(Join(pairs, "&")), '&'));
        DecodePairs(Split(Join(pairs, "&"), '&'));
        DecodePairs(pairs);
      }
    }
  }

  /** The entries of an argument map name first, values rendered as `String(value)`. */
  function Entries(args: JsMap): (entries: seq<Entry>)
    requires args.Valid()
    ensures |entries| == |args.order|
  {
    seq(|args.order|, i requires 0 <= i < |args.order| =>
      (args.order[i], ToString(args.entries[args.order[i]])))
  }

  /** The intended target: the path, then the intended query when some argument is set. */
  function IntendedTarget(base: string, parts: seq<string>, args: JsMap): string
    requires args.Valid()
  {
    Path(base, parts) + (if |args.order| == 0 then "" else "?" + IntendedQuery(Entries(args)))
  }

  /** Each argument reads back under its own name, with its own value, in insertion order. */
  lemma IntendedTargetReadsBack(base: string, parts: seq<string>, args: JsMap)
    requires args.Valid() && |args.order| > 0
    ensures var t := IntendedTarget(base, parts, args);
      && t[..|Path(base, parts)|] == Path(base, parts)
      && t[|Path(base, parts)|] == '?'
      && ParseQuery(t[|Path(base, parts)| + 1..]) == Some(Entries(args))
  {
    var p, q := Path(base, parts), IntendedQuery(Entries(args));
    assert IntendedTarget(base, parts, args) == p + "?" + q;
    assert (p + "?" + q)[|p| + 1..] == q;
    ParseIntendedQuery(Entries(args));
  }

  /** An array argument sent as one entry per element, in order, each under the argument's name. */
  function ArrayEntries(key: string, items: seq<Value>): (entries: seq<Entry>)
    ensures |entries| == |items|
    ensures forall i :: 0 <= i < |items| ==> entries[i] == (key, ToString(items[i]))
  {
    seq(|items|, i requires 0 <= i < |items| => (key, ToString(items[i])))
  }

  /** A revision list as the entries `rev=<revision>`, one per revision, in order. */
  function RevisionEntries(revisions: seq<int>): (entries: seq<Entry>)
    ensures |entries| == |revisions|
    ensures forall i :: 0 <= i < |revisions| ==> entries[i] == ("rev", IntToString(revisions[i]))
  {
    seq(|revisions|, i requires 0 <= i < |revisions| => ("rev", IntToString(revisions[i])))
  }

  /** The entries one corrected `setArg` call contributes: none when omitted, one per element for an array, else one. */
  function CallEntries(c: ArgCall): (entries: seq<Entry>)
    ensures c.value.IsNullish() ==> entries == []
    ensures !c.value.IsNullish() && !c.value.Arr? ==> entries == [(c.key, ToString(c.value))]
    ensures forall e :: e in entries ==> e.0 == c.key
  {
    if c.value.IsNullish() then []
    else if c.value.Arr? then ArrayEntries(c.key, c.value.items)
    else [(c.key, ToString(c.value))]
  }

  /**
   * The corrected reading of a `setArg` chain: each call adds its entries at
   * the end, so an array argument sends every element under its key.
   */
  function IntendedEntries(calls: seq<ArgCall>): (entries: seq<Entry>)
    ensures forall e :: e in entries ==> e.0 in KeysOf(calls)
  {
    if calls == [] then []
    else
      var n := |calls|;
      var front := IntendedEntries(calls[..n - 1]);
      assert KeysOf(calls) == KeysOf(calls[..n - 1]) + [calls[n - 1].key];
      front + CallEntries(calls[n - 1])
  }

  /** Setting a new key adds its entry at the end of the map's entries. */
  lemma EntriesOfNewKey(m: JsMap, key: string, value: Value)
    requires m.Valid() && key !in m.entries
    ensures Entries(m.Set(key, value)) == Entries(m) + [(key, ToString(value))]
  {
    var r := m.Set(key, value);
    forall i | 0 <= i < |m.order| ensures Entries(r)[i] == Entries(m)[i] {
      assert m.order[i] in m.entries;
    }
  }

  /**
   * Where the builder as written is right (distinct keys, no arrays), the
   * corrected reading gives the same entries in the same order: the fix
   * changes nothing but arrays.
   */
  lemma {:induction false} IntendedEntriesAgree(calls: seq<ArgCall>)
    requires Distinct(KeysOf(calls))
    requires forall i :: 0 <= i < |calls| ==> !calls[i].value.Arr?
    ensures IntendedEntries(calls) == Entries(ArgsOf(calls))
  {
    if calls != [] {
      var n := |calls|;
      var front, last := calls[..n - 1], calls[n - 1];
      LastKeyIsNew(calls);
      IntendedEntriesAgree(front);
      if !last.value.IsNullish() {
        EntriesOfNewKey(ArgsOf(front), last.key, last.value);
      }
    }
  }

  /**
   * In the corrected reading, the single `rev` argument of
   * `addRevisionsToReviewItem` and `deleteRevisionsFromReviewItem` carries
   * every revision to the server, in order.
   */
  lemma RevisionsAllSent(reviewId: string, reviewItemId: string, revisions: seq<int>)
    ensures var add := ReviewItemRequest(AddRevisionsToReviewItem(reviewId, reviewItemId, revisions)).args;
      var del := ReviewItemRequest(DeleteRevisionsFromReviewItem(reviewId, reviewItemId, revisions)).args;
      && add == del
      && IntendedEntries(add) == RevisionEntries(revisions)
      && ParseQuery(IntendedQuery(IntendedEntries(add))) == Some(RevisionEntries(revisions))
  {
    var add := ReviewItemRequest(AddRevisionsToReviewItem(reviewId, reviewItemId, revisions)).args;
    var call := add[0];
    assert add == [call] && add[..0] == [];
    assert CallEntries(call) == RevisionEntries(revisions);
    ParseIntendedQuery(RevisionEntries(revisions));
  }
}
