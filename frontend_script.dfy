/** The entity handling of frontend/script.js: normalising the entity list the
    backend returns, the highlighted markup, and the CSV export. The page itself
    (DOM, fetch, the download) is outside the model; JavaScript's conversion of a
    number to a string, used for the confidence, is the parameter `show`. */
module Frontend {
  import opened Seqs
  import opened Sorting
  import opened Splicing
  import opened Entities

  // ---------------------------------------------------------------- cleanEntities

  /** The `allowed.includes(e.entity)` test; the list holds the ten allowed types. */
  predicate IsAllowedRecord(e: Record) {
    e.entity in AllowedEntities
  }

  /** The map key `${e.start}-${e.end}`, kept as the pair of offsets it spells. */
  datatype Span = Span(start: int, end: int)

  function SpanOf(e: Record): Span {
    Span(e.start, e.end)
  }

  /** The object `map`: its keys in insertion order, which is the order
      `Object.values` reports them in (a key such as "5-15" is not an array index),
      and the entity stored under each key. */
  datatype SpanTable = SpanTable(keys: seq<Span>, entries: map<Span, Record>)

  /** Keys and entries agree, no key is listed twice, and each entity is stored
      under its own span. */
  predicate TableValid(t: SpanTable) {
    && (forall k :: k in t.entries ==> k in t.keys)
    && (forall k :: k in t.keys ==> k in t.entries)
    && (forall i, j :: 0 <= i < j < |t.keys| ==> t.keys[i] != t.keys[j])
    && (forall k :: k in t.entries ==> SpanOf(t.entries[k]) == k)
  }

  /** One call of the `forEach` body: a new span is added at the end, a strictly
      more confident entity replaces the stored one in place, anything else is
      ignored. */
  function Step(t: SpanTable, e: Record): SpanTable {
    var k := SpanOf(e);
    if k !in t.entries then SpanTable(t.keys + [k], t.entries[k := e])
    else if t.entries[k].confidence < e.confidence then SpanTable(t.keys, t.entries[k := e])
    else t
  }

  lemma StepKeepsValid(t: SpanTable, e: Record)
    requires TableValid(t)
    ensures TableValid(Step(t, e))
  {
    var k := SpanOf(e);
    if k !in t.entries {
      var keys := t.keys + [k];
      forall i, j | 0 <= i < j < |keys|
        ensures keys[i] != keys[j]
      {
        if j == |t.keys| {
          assert keys[i] == t.keys[i];
          assert t.keys[i] in t.entries;
        }
      }
    }
  }

  /** The map after the `forEach` over `xs`. */
  function Fold(xs: seq<Record>): (t: SpanTable)
    ensures TableValid(t)
  {
    if xs == [] then SpanTable([], map[])
    else
      var t := Fold(xs[..|xs| - 1]);
      StepKeepsValid(t, xs[|xs| - 1]);
      Step(t, xs[|xs| - 1])
  }

  function ValuesOf(keys: seq<Span>, entries: map<Span, Record>): (vs: seq<Record>)
    requires forall k :: k in keys ==> k in entries
    ensures |vs| == |keys|
    ensures forall i :: 0 <= i < |keys| ==> vs[i] == entries[keys[i]]
  {
    if keys == [] then []
    else ValuesOf(keys[..|keys| - 1], entries) + [entries[keys[|keys| - 1]]]
  }

  /** `Object.values(map)`. */
  function Values(t: SpanTable): seq<Record>
    requires TableValid(t)
  {
    ValuesOf(t.keys, t.entries)
  }

  function StartOf(e: Record): int {
    e.start
  }

  /** What `cleanEntities` returns: allowed types only, one entity per span, sorted
      by start with the stable `Array.prototype.sort`. */
  function Normalized(entities: seq<Record>): seq<Record> {
    Sort(Values(Fold(Filter(entities, IsAllowedRecord))), StartOf)
  }

  /** The entity the map holds for span `k` is `xs[j]`: it has that span, no entity
      with that span is more confident, and every earlier one is strictly less
      confident, so `xs[j]` is the first of the most confident. */
  predicate FirstMaxAt(xs: seq<Record>, j: int, k: Span) {
    && 0 <= j < |xs| && SpanOf(xs[j]) == k
    && (forall i :: 0 <= i < |xs| && SpanOf(xs[i]) == k ==> xs[i].confidence <= xs[j].confidence)
    && (forall i :: 0 <= i < j && SpanOf(xs[i]) == k ==> xs[i].confidence < xs[j].confidence)
  }

  lemma FoldSnoc(pre: seq<Record>, x: Record)
    ensures Fold(pre + [x]) == Step(Fold(pre), x)
  {
    assert (pre + [x])[..|pre|] == pre;
  }

  /** Some entity of `xs` has span `k`. */
  predicate HasSpan(xs: seq<Record>, k: Span) {
    exists i :: 0 <= i < |xs| && SpanOf(xs[i]) == k
  }

  lemma HasSpanSnoc(pre: seq<Record>, x: Record, k: Span)
    ensures HasSpan(pre + [x], k) <==> HasSpan(pre, k) || SpanOf(x) == k
  {
    var xs := pre + [x];
    if HasSpan(xs, k) {
      var i :| 0 <= i < |xs| && SpanOf(xs[i]) == k;
      if i < |pre| {
        assert xs[i] == pre[i];
      }
    }
    if HasSpan(pre, k) {
      var i :| 0 <= i < |pre| && SpanOf(pre[i]) == k;
      assert xs[i] == pre[i];
    }
    if SpanOf(x) == k {
      assert xs[|pre|] == x;
    }
  }

  /** An entity with another span leaves the choice for `k` alone. */
  lemma FirstMaxOther(pre: seq<Record>, x: Record, j: int, k: Span)
    requires FirstMaxAt(pre, j, k) && SpanOf(x) != k
    ensures FirstMaxAt(pre + [x], j, k)
  {
    var xs := pre + [x];
    assert forall i :: 0 <= i < |pre| ==> xs[i] == pre[i];
  }

  /** An entity with span `k` that is not more confident leaves the choice alone. */
  lemma FirstMaxKeep(pre: seq<Record>, x: Record, j: int, k: Span)
    requires FirstMaxAt(pre, j, k) && SpanOf(x) == k && x.confidence <= pre[j].confidence
    ensures FirstMaxAt(pre + [x], j, k)
  {
    var xs := pre + [x];
    assert forall i :: 0 <= i < |pre| ==> xs[i] == pre[i];
  }

  /** An entity strictly more confident than every earlier one with its span becomes
      the choice. */
  lemma FirstMaxTake(pre: seq<Record>, x: Record, k: Span)
    requires SpanOf(x) == k
    requires forall i :: 0 <= i < |pre| && SpanOf(pre[i]) == k ==> pre[i].confidence < x.confidence
    ensures FirstMaxAt(pre + [x], |pre|, k)
  {
    var xs := pre + [x];
    assert forall i :: 0 <= i < |pre| ==> xs[i] == pre[i];
  }

  /** What the map holds for `k` after the loop over `xs`. */
  ghost predicate EntryIsFirstMax(xs: seq<Record>, k: Span) {
    && (k in Fold(xs).entries <==> HasSpan(xs, k))
    && (k in Fold(xs).entries ==> exists j :: FirstMaxAt(xs, j, k) && Fold(xs).entries[k] == xs[j])
  }

  lemma FoldEntryStep(pre: seq<Record>, x: Record, k: Span)
    requires EntryIsFirstMax(pre, k)
    ensures EntryIsFirstMax(pre + [x], k)
  {
    var t := Fold(pre);
    FoldSnoc(pre, x);
    HasSpanSnoc(pre, x, k);
    var xs := pre + [x];
    if k in Fold(xs).entries {
      if SpanOf(x) != k {
        var j :| FirstMaxAt(pre, j, k) && t.entries[k] == pre[j];
        FirstMaxOther(pre, x, j, k);
        assert xs[j] == pre[j];
      } else if k !in t.entries {
        FirstMaxTake(pre, x, k);
        assert xs[|pre|] == x;
      } else {
        var j :| FirstMaxAt(pre, j, k) && t.entries[k] == pre[j];
        assert xs[j] == pre[j];
        if t.entries[k].confidence < x.confidence {
          FirstMaxTake(pre, x, k);
          assert xs[|pre|] == x;
        } else {
          FirstMaxKeep(pre, x, j, k);
        }
      }
    }
  }

  /** After the loop the map has a key for exactly the spans of the entities, and
      holds under each the first of the most confident entities with that span. */
  lemma {:induction false} FoldEntry(xs: seq<Record>, k: Span)
    ensures k in Fold(xs).entries <==> HasSpan(xs, k)
    ensures k in Fold(xs).entries ==> exists j :: FirstMaxAt(xs, j, k) && Fold(xs).entries[k] == xs[j]
    decreases |xs|
  {
    if xs != [] {
      var pre := xs[..|xs| - 1];
      assert xs == pre + [xs[|xs| - 1]];
      FoldEntry(pre, k);
      FoldEntryStep(pre, xs[|xs| - 1], k);
    }
  }

  lemma ValuesMembership(t: SpanTable, e: Record)
    requires TableValid(t)
    ensures e in Values(t) <==> exists k :: k in t.entries && t.entries[k] == e
  {
    var vs := Values(t);
    if e in vs {
      var i :| 0 <= i < |vs| && vs[i] == e;
      assert t.keys[i] in t.entries;
    }
    if exists k :: k in t.entries && t.entries[k] == e {
      var k :| k in t.entries && t.entries[k] == e;
      var i :| 0 <= i < |t.keys| && t.keys[i] == k;
      assert vs[i] == e;
    }
  }

  lemma ValuesDistinct(t: SpanTable)
    requires TableValid(t)
    ensures DistinctBy(Values(t), SpanOf)
  {
    var vs := Values(t);
    forall i, j | 0 <= i < j < |vs|
      ensures SpanOf(vs[i]) != SpanOf(vs[j])
    {
      assert t.keys[i] in t.entries && t.keys[j] in t.entries;
    }
  }

  /** An entity the map holds, with the index of the allowed entity it came from. */
  lemma NormalizedSource(entities: seq<Record>, e: Record)
    requires e in Normalized(entities)
    ensures exists j :: FirstMaxAt(Filter(entities, IsAllowedRecord), j, SpanOf(e))
                     && Filter(entities, IsAllowedRecord)[j] == e
  {
    var filtered := Filter(entities, IsAllowedRecord);
    var t := Fold(filtered);
    SortPermutes(Values(t), StartOf, e);
    ValuesMembership(t, e);
    var k :| k in t.entries && t.entries[k] == e;
    FoldEntry(filtered, k);
  }

  /** Every entity `cleanEntities` returns is an input entity of an allowed type. */
  lemma NormalizedAllowed(entities: seq<Record>, e: Record)
    requires e in Normalized(entities)
    ensures e in entities && IsAllowedRecord(e)
  {
    NormalizedSource(entities, e);
    var filtered := Filter(entities, IsAllowedRecord);
    var j :| FirstMaxAt(filtered, j, SpanOf(e)) && filtered[j] == e;
    FilterMembership(entities, IsAllowedRecord, e);
  }

  /** For its span, a returned entity is at least as confident as every allowed input
      entity with that span, and strictly more confident than every one before it:
      on a tie the first one seen is kept. */
  lemma NormalizedKeepsFirstBest(entities: seq<Record>, e: Record, x: Record)
    requires e in Normalized(entities)
    requires x in entities && IsAllowedRecord(x) && SpanOf(x) == SpanOf(e)
    ensures x.confidence <= e.confidence
    ensures exists j :: FirstMaxAt(Filter(entities, IsAllowedRecord), j, SpanOf(e))
                     && Filter(entities, IsAllowedRecord)[j] == e
  {
    NormalizedSource(entities, e);
    var filtered := Filter(entities, IsAllowedRecord);
    FilterMembership(entities, IsAllowedRecord, x);
    var i :| 0 <= i < |filtered| && filtered[i] == x;
    var j :| FirstMaxAt(filtered, j, SpanOf(e)) && filtered[j] == e;
  }

  /** No two returned entities share a span, and every span of an allowed input
      entity is represented. */
  lemma NormalizedOnePerSpan(entities: seq<Record>, x: Record)
    ensures DistinctBy(Normalized(entities), SpanOf)
    ensures x in entities && IsAllowedRecord(x) ==>
      exists e :: e in Normalized(entities) && SpanOf(e) == SpanOf(x)
  {
    var filtered := Filter(entities, IsAllowedRecord);
    var t := Fold(filtered);
    ValuesDistinct(t);
    SortDistinct(Values(t), StartOf, SpanOf);
    if x in entities && IsAllowedRecord(x) {
      FilterMembership(entities, IsAllowedRecord, x);
      var i :| 0 <= i < |filtered| && filtered[i] == x;
      FoldEntry(filtered, SpanOf(x));
      var e := t.entries[SpanOf(x)];
      ValuesMembership(t, e);
      SortPermutes(Values(t), StartOf, e);
    }
  }

  /** The result is sorted by start, and entities with the same start keep the order
      in which their spans were first seen. */
  lemma NormalizedSorted(entities: seq<Record>, s: int)
    ensures SortedBy(Normalized(entities), StartOf)
    ensures Filter(Normalized(entities), HasKey(StartOf, s))
         == Filter(Values(Fold(Filter(entities, IsAllowedRecord))), HasKey(StartOf, s))
  {
    var vs := Values(Fold(Filter(entities, IsAllowedRecord)));
    SortSorted(vs, StartOf);
    SortStable(vs, StartOf, s);
  }

  /** Adding a new key at the end adds its entity at the end of the values. */
  lemma ValuesAddKey(t: SpanTable, x: Record)
    requires TableValid(t) && SpanOf(x) !in t.entries
    ensures Values(Step(t, x)) == Values(t) + [x]
  {
    var k := SpanOf(x);
    var m := t.entries[k := x];
    assert (t.keys + [k])[..|t.keys|] == t.keys;
    var before := ValuesOf(t.keys, t.entries);
    var after := ValuesOf(t.keys, m);
    assert forall i :: 0 <= i < |t.keys| ==> after[i] == before[i];
    assert after == before;
  }

  lemma {:induction false} FoldDistinct(xs: seq<Record>)
    requires DistinctBy(xs, SpanOf)
    ensures Values(Fold(xs)) == xs
    decreases |xs|
  {
    if xs != [] {
      var n := |xs| - 1;
      var pre := xs[..n];
      var x := xs[n];
      assert xs == pre + [x];
      assert DistinctBy(pre, SpanOf) by {
        forall i, j | 0 <= i < j < |pre|
          ensures SpanOf(pre[i]) != SpanOf(pre[j])
        {
          assert pre[i] == xs[i] && pre[j] == xs[j];
        }
      }
      FoldDistinct(pre);
      FoldEntry(pre, SpanOf(x));
      assert !HasSpan(pre, SpanOf(x)) by {
        forall i | 0 <= i < |pre|
          ensures SpanOf(pre[i]) != SpanOf(x)
        {
          assert pre[i] == xs[i];
        }
      }
      FoldSnoc(pre, x);
      ValuesAddKey(Fold(pre), x);
    }
  }

  /** `cleanEntities` of its own output changes nothing; the page relies on this when
      `highlightText` cleans the list already cleaned after `/analyze`. */
  lemma NormalizedIdempotent(entities: seq<Record>)
    ensures Normalized(Normalized(entities)) == Normalized(entities)
  {
    var once := Normalized(entities);
    forall e | e in once
      ensures IsAllowedRecord(e)
    {
      NormalizedAllowed(entities, e);
    }
    FilterKeepsAll(once, IsAllowedRecord);
    NormalizedOnePerSpan(entities, Record("", 0, 0, 0.0, ""));
    FoldDistinct(once);
    NormalizedSorted(entities, 0);
    SortOfSorted(once, StartOf);
  }

  /** `cleanEntities`: the allow-list filter, the loop that fills the map, then the
      values sorted by start. */
  method CleanEntities(entities: seq<Record>) returns (clean: seq<Record>)
    ensures clean == Normalized(entities)
    ensures forall e :: e in clean ==> e in entities && IsAllowedRecord(e)
    ensures DistinctBy(clean, SpanOf)
    ensures SortedBy(clean, StartOf)
  {
    var filtered := Filter(entities, IsAllowedRecord);
    var keys, table := FillSpanTable(filtered);
    clean := Sort(ValuesOf(keys, table), StartOf);
    forall e | e in clean
      ensures e in entities && IsAllowedRecord(e)
    {
      NormalizedAllowed(entities, e);
    }
    NormalizedOnePerSpan(entities, Record("", 0, 0, 0.0, ""));
    NormalizedSorted(entities, 0);
  }

  /** The loop of `cleanEntities`: the map from span key to entity, filled in list
      order, with an entity replacing the stored one only when its confidence is
      higher. `keys` is the map's insertion order. */
  method FillSpanTable(filtered: seq<Record>) returns (keys: seq<Span>, table: map<Span, Record>)
    ensures SpanTable(keys, table) == Fold(filtered)
  {
    keys := [];
    table := map[];
    for i := 0 to |filtered|
      invariant SpanTable(keys, table) == Fold(filtered[..i])
    {
      var e := filtered[i];
      assert filtered[..i + 1][..i] == filtered[..i];
      var key := Span(e.start, e.end);
      if key !in table || table[key].confidence < e.confidence {
        if key !in table {
          keys := keys + [key];
        }
        table := table[key := e];
      }
    }
    assert filtered[..|filtered|] == filtered;
  }

  /** A Voter ID token is also an Org ID token, so the engine reports the same span
      twice with the same score; the frontend keeps whichever came first. */
  lemma TieKeepsFirst(v: Record, o: Record)
    requires v == Record(VOTER_ID, 0, 10, 0.8, "ABC1234567")
    requires o == Record(ORG_ID, 0, 10, 0.8, "ABC1234567")
    ensures Normalized([v, o]) == [v]
    ensures Normalized([o, v]) == [o]
  {
    TieFold(v, o);
    TieFold(o, v);
  }

  /** The fold over two entities of the same allowed span and confidence keeps
      the first, and cleaning returns it alone. */
  lemma TieFold(a: Record, b: Record)
    requires IsAllowedRecord(a) && IsAllowedRecord(b)
    requires SpanOf(a) == SpanOf(b) && a.confidence == b.confidence
    ensures Normalized([a, b]) == [a]
  {
    FilterKeepsAll([a, b], IsAllowedRecord);
    var t := SpanTable([SpanOf(a)], map[SpanOf(a) := a]);
    assert [a] == [] + [a];
    FoldSnoc([], a);
    assert Fold([a]) == t;
    assert [a, b] == [a] + [b];
    FoldSnoc([a], b);
    assert Fold([a, b]) == t;
    assert Values(t) == [a];
    SortOfSorted([a], StartOf);
  }

  // ---------------------------------------------------------------- highlightText

  /** The fixed text of the template literal of `highlightText`, around the entity
      type, the original text of the span and the confidence. */
  datatype Markup = Markup(beforeType: string, afterType: string, beforeScore: string, afterScore: string)

  const HighlightMarkup := Markup(
    "\n      <span class=\"highlight ", "\">\n        ",
    "\n        <sup>", "</sup>\n      </span>\n    ")

  /** The markup that replaces one span, holding the entity type, the original
      text of the span and the confidence. */
  function Wrapper(m: Markup, e: Record, original: string, show: real -> string): (w: string)
    ensures |w| == WrapperOffset(m, e) + |original| + |m.beforeScore + show(e.confidence) + m.afterScore|
    ensures w[WrapperOffset(m, e)..WrapperOffset(m, e) + |original|] == original
  {
    var head := m.beforeType + e.entity + m.afterType;
    var w := head + original + (m.beforeScore + show(e.confidence) + m.afterScore);
    assert w[|head|..|head| + |original|] == original;
    w
  }

  /** Where the original text starts inside the wrapper. */
  function WrapperOffset(m: Markup, e: Record): nat {
    |m.beforeType| + |e.entity| + |m.afterType|
  }

  /** The rewrite one entity causes: its span, in the text being built, replaced by
      the wrapper around the span's text in the ORIGINAL text. */
  function HighlightEdit(m: Markup, text: string, e: Record, show: real -> string): Edit {
    Edit(e.start, e.end, Wrapper(m, e, Slice(text, e.start, e.end), show))
  }

  function HighlightEdits(m: Markup, text: string, es: seq<Record>, show: real -> string): seq<Edit> {
    seq(|es|, k requires 0 <= k < |es| => HighlightEdit(m, text, es[k], show))
  }

  /** One rewrite per entity; the i-th is the i-th entity's. */
  lemma HighlightEditsAt(m: Markup, text: string, es: seq<Record>, show: real -> string, i: nat)
    requires i < |es|
    ensures |HighlightEdits(m, text, es, show)| == |es|
    ensures HighlightEdits(m, text, es, show)[i] == HighlightEdit(m, text, es[i], show)
  {
  }

  lemma HighlightEditsSnoc(m: Markup, text: string, es: seq<Record>, e: Record, show: real -> string)
    ensures HighlightEdits(m, text, es + [e], show) == HighlightEdits(m, text, es, show) + [HighlightEdit(m, text, e, show)]
  {
    var longer := HighlightEdits(m, text, es + [e], show);
    assert forall k :: 0 <= k < |es| ==> longer[k] == HighlightEdits(m, text, es, show)[k];
  }

  function NegStart(e: Record): int {
    -e.start
  }

  /** `cleanEntities(entities).sort((a, b) => b.start - a.start)`. */
  function HighlightOrder(entities: seq<Record>): seq<Record> {
    Sort(Normalized(entities), NegStart)
  }

  function HighlightPlan(text: string, entities: seq<Record>, show: real -> string): seq<Edit> {
    HighlightEdits(HighlightMarkup, text, HighlightOrder(entities), show)
  }

  /** What `highlightText` returns. */
  function Highlighted(text: string, entities: seq<Record>, show: real -> string): string {
    ApplyEdits(text, HighlightPlan(text, entities, show))
  }

  /** One turn of the loop of `highlightText`: splicing the next wrapper into the
      text built so far is applying one more rewrite. */
  lemma HighlightStep(m: Markup, text: string, done: seq<Record>, e: Record, show: real -> string, result: string)
    requires result == ApplyEdits(text, HighlightEdits(m, text, done, show))
    ensures Slice(result, 0, e.start) + Wrapper(m, e, Slice(text, e.start, e.end), show) + Slice(result, e.end, |result|)
         == ApplyEdits(text, HighlightEdits(m, text, done + [e], show))
  {
    var edits := HighlightEdits(m, text, done, show);
    HighlightEditsSnoc(m, text, done, e, show);
    ApplyEditsSnoc(text, edits, HighlightEdit(m, text, e, show));
  }

  /** Without an entity of an allowed type nothing is rewritten. */
  lemma HighlightNothing(text: string, entities: seq<Record>, show: real -> string)
    requires forall e :: e in entities ==> !IsAllowedRecord(e)
    ensures Highlighted(text, entities, show) == text
  {
    if Normalized(entities) != [] {
      NormalizedAllowed(entities, Normalized(entities)[0]);
    }
  }

  /** `highlightText`: clean, order by descending start, and splice each wrapper in. */
  method HighlightText(text: string, entities: seq<Record>, show: real -> string) returns (result: string)
    ensures result == Highlighted(text, entities, show)
  {
    var clean := CleanEntities(entities);
    clean := Sort(clean, NegStart);
    result := SpliceWrappers(text, clean, show);
  }

  /** The loop of `highlightText`: each entity's wrapper replaces its span in the
      text built so far, in the given order. */
  method SpliceWrappers(text: string, order: seq<Record>, show: real -> string) returns (result: string)
    ensures result == ApplyEdits(text, HighlightEdits(HighlightMarkup, text, order, show))
  {
    result := text;
    for i := 0 to |order|
      invariant result == ApplyEdits(text, HighlightEdits(HighlightMarkup, text, order[..i], show))
    {
      var e := order[i];
      TakeSnoc(order, i);
      HighlightStep(HighlightMarkup, text, order[..i], e, show, result);
      var original := Slice(text, e.start, e.end);
      var span := Wrapper(HighlightMarkup, e, original, show);
      result := Slice(result, 0, e.start) + span + Slice(result, e.end, |result|);
    }
    assert order[..|order|] == order;
  }

  /** The wrappers are applied by descending start, and they are exactly the cleaned
      entities. */
  lemma HighlightOrderIsDescending(entities: seq<Record>, e: Record)
    ensures forall i, j :: 0 <= i < j < |HighlightOrder(entities)| ==>
      HighlightOrder(entities)[j].start <= HighlightOrder(entities)[i].start
    ensures e in HighlightOrder(entities) <==> e in Normalized(entities)
  {
    SortSorted(Normalized(entities), NegStart);
    SortPermutes(Normalized(entities), NegStart, e);
  }

  /** Cleaning the list before highlighting it changes nothing. */
  lemma HighlightAfterClean(text: string, entities: seq<Record>, show: real -> string)
    ensures Highlighted(text, Normalized(entities), show) == Highlighted(text, entities, show)
  {
    NormalizedIdempotent(entities);
  }

  /** The wrapper of `e` holds `e`'s original `text.slice(start, end)` at the
      wrapper's offset. */
  lemma WrapperHoldsOriginal(m: Markup, text: string, e: Record, show: real -> string)
    requires 0 <= e.start <= e.end <= |text|
    ensures WrapperOffset(m, e) + (e.end - e.start) <= |HighlightEdit(m, text, e, show).insert|
    ensures HighlightEdit(m, text, e, show).insert[WrapperOffset(m, e)..WrapperOffset(m, e) + (e.end - e.start)]
         == text[e.start..e.end]
  {
    assert Slice(text, e.start, e.end) == text[e.start..e.end];
  }

  // ---------------------------------------------------------------- downloadCSV

  const CsvHeaderLine := "Entity,Value,Confidence,Start,End"

  /** One CSV line without its newline: `${e.entity},${e.value},${e.confidence},${e.start},${e.end}`. */
  function CsvLine(e: Record, show: real -> string): string {
    e.entity + "," + e.value + "," + show(e.confidence) + "," + IntToDecimal(e.start) + "," + IntToDecimal(e.end)
  }

  function CsvRows(es: seq<Record>, show: real -> string): string {
    if es == [] then "" else CsvLine(es[0], show) + "\n" + CsvRows(es[1..], show)
  }

  /** The file `downloadCSV` builds. */
  function Csv(es: seq<Record>, show: real -> string): string {
    CsvHeaderLine + "\n" + CsvRows(es, show)
  }

  lemma {:induction false} CsvRowsSnoc(es: seq<Record>, e: Record, show: real -> string)
    ensures CsvRows(es + [e], show) == CsvRows(es, show) + (CsvLine(e, show) + "\n")
  {
    if es == [] {
      assert [e][1..] == [];
    } else {
      assert (es + [e])[1..] == es[1..] + [e];
      CsvRowsSnoc(es[1..], e, show);
      ConcatAssoc(CsvLine(es[0], show) + "\n", CsvRows(es[1..], show), CsvLine(e, show) + "\n");
    }
  }

  /** Associativity of concatenation as an equation on the three given strings.
      The verifier knows it, but only through extensional sequence equality, which
      is costly where the strings are long expressions; this instance is cheap. */
  lemma ConcatAssoc(a: string, b: string, c: string)
    ensures a + (b + c) == a + b + c
  {
  }

  /** `downloadCSV`, without the download: the header, then `csv +=` one line per entity. */
  method DownloadCsv(entities: seq<Record>, show: real -> string) returns (csv: string)
    ensures csv == Csv(entities, show)
  {
    csv := AppendRows(CsvHeaderLine + "\n", entities, show);
  }

  /** The `forEach` loop of `downloadCSV`: `csv +=` one line per entity. */
  method AppendRows(head: string, entities: seq<Record>, show: real -> string) returns (csv: string)
    ensures csv == head + CsvRows(entities, show)
  {
    csv := head;
    assert csv == head + CsvRows([], show);
    for i := 0 to |entities|
      invariant csv == head + CsvRows(entities[..i], show)
    {
      var e := entities[i];
      assert entities[..i + 1] == entities[..i] + [e];
      CsvRowsSnoc(entities[..i], e, show);
      ConcatAssoc(head, CsvRows(entities[..i], show), CsvLine(e, show) + "\n");
      csv := csv + (CsvLine(e, show) + "\n");
    }
    assert entities[..|entities|] == entities;
  }

  /** No field of the entity holds a line break. */
  predicate SingleLineFields(e: Record, show: real -> string) {
    '\n' !in e.entity && '\n' !in e.value && '\n' !in show(e.confidence)
  }

  lemma CsvLineSingle(e: Record, show: real -> string)
    requires SingleLineFields(e, show)
    ensures '\n' !in CsvLine(e, show)
  {
  }

  lemma {:induction false} CsvRowsLines(es: seq<Record>, show: real -> string)
    requires forall e :: e in es ==> SingleLineFields(e, show)
    ensures |SplitLines(CsvRows(es, show))| == |es|
    ensures forall i :: 0 <= i < |es| ==> SplitLines(CsvRows(es, show))[i] == CsvLine(es[i], show)
  {
    if es != [] {
      CsvLineSingle(es[0], show);
      CsvRowsLines(es[1..], show);
      SplitLinesCons(CsvLine(es[0], show), CsvRows(es[1..], show));
      var lines := SplitLines(CsvRows(es, show));
      forall i | 0 <= i < |es|
        ensures lines[i] == CsvLine(es[i], show)
      {
        if i > 0 {
          assert es[1..][i - 1] == es[i];
        }
      }
    }
  }

  /** The header is a single line. */
  lemma HeaderSingleLine()
    ensures '\n' !in CsvHeaderLine
  {
  }

  /** A single-line head followed by the rows splits into the head and one line per row. */
  lemma {:induction false} LinesAfterHeader(head: string, es: seq<Record>, show: real -> string)
    requires '\n' !in head
    requires forall e :: e in es ==> SingleLineFields(e, show)
    ensures |SplitLines(head + "\n" + CsvRows(es, show))| == |es| + 1
    ensures SplitLines(head + "\n" + CsvRows(es, show))[0] == head
    ensures forall i :: 0 <= i < |es| ==>
      SplitLines(head + "\n" + CsvRows(es, show))[i + 1] == CsvLine(es[i], show)
  {
    var rows := CsvRows(es, show);
    var lines := SplitLines(rows);
    SplitLinesCons(head, rows);
    CsvRowsLines(es, show);
    assert SplitLines(head + "\n" + rows) == [head] + lines;
    forall i | 0 <= i < |es|
      ensures ([head] + lines)[i + 1] == CsvLine(es[i], show)
    {
      assert ([head] + lines)[i + 1] == lines[i];
    }
  }

  /** The file is the header line followed by exactly one line per entity, in list
      order, as long as no field holds a line break (the export does no quoting). */
  lemma CsvLines(es: seq<Record>, show: real -> string)
    requires forall e :: e in es ==> SingleLineFields(e, show)
    ensures |SplitLines(Csv(es, show))| == |es| + 1
    ensures SplitLines(Csv(es, show))[0] == CsvHeaderLine
    ensures forall i :: 0 <= i < |es| ==> SplitLines(Csv(es, show))[i + 1] == CsvLine(es[i], show)
  {
    HeaderSingleLine();
    LinesAfterHeader(CsvHeaderLine, es, show);
  }
}
