/**
 * The arithmetic of `Queue.pop` (taskq/queue.py:75-109): which heaps take
 * part, what each returned item is worth, when the loop stops, and the scan of
 * the heads that `_pop` uses to find the earliest entry.
 */
module Selection {
  import opened Wrappers
  import opened Entries
  import opened Heaps
  import opened Filing

  /** Python truthiness of `count`: None and 0 are false. */
  predicate CountGiven(count: Option<int>) {
    count.Some? && count.value != 0
  }

  /** Python truthiness of an optional list: None and [] are false. */
  predicate Given<T>(xs: Option<seq<T>>) {
    xs.Some? && |xs.value| > 0
  }

  /** `threshold = count or 1`. */
  function Threshold(count: Option<int>): real {
    if CountGiven(count) then count.value as real else 1.0
  }

  /** A heap takes part in a pop when no categories are given or its name is among them. */
  predicate Selected(categories: Option<seq<Category>>, c: Category) {
    !Given(categories) || c in categories.value
  }

  /** Items are weighed by their category's ratio only when both lists are given. */
  predicate Weighted(categories: Option<seq<Category>>, ratios: Option<seq<real>>) {
    Given(categories) && Given(ratios)
  }

  /** list.index: the position of the first occurrence of `c`. */
  function IndexOf(s: seq<Category>, c: Category): (i: nat)
    requires c in s
    ensures i < |s| && s[i] == c
    ensures forall j | 0 <= j < i :: s[j] != c
  {
    if s[0] == c then 0 else 1 + IndexOf(s[1..], c)
  }

  /** What one returned item of category `c` adds to the accumulated value (queue.py:94-97). */
  function Weight(categories: Option<seq<Category>>, ratios: Option<seq<real>>, c: Category): real
    requires Selected(categories, c)
    requires Weighted(categories, ratios) ==> |ratios.value| >= |categories.value|
  {
    if Weighted(categories, ratios) then ratios.value[IndexOf(categories.value, c)] else 1.0
  }

  /** With both lists given, an item of category `c` is worth the ratio at the first position of `c` in `categories`. */
  lemma WeightIsRatio(categories: Option<seq<Category>>, ratios: Option<seq<real>>, c: Category)
    requires Weighted(categories, ratios) && |ratios.value| >= |categories.value|
    requires c in categories.value
    ensures exists i :: 0 <= i < |categories.value| && categories.value[i] == c
                        && Weight(categories, ratios, c) == ratios.value[i]
                        && forall j | 0 <= j < i :: categories.value[j] != c
  {
    var i := IndexOf(categories.value, c);
    assert categories.value[i] == c && Weight(categories, ratios, c) == ratios.value[i];
  }

  /** The items that the live entries among `es` carry, in order. */
  function LiveItems<Item>(es: seq<Entry>, slots: map<Entry, Payload<Item>>): (items: seq<Item>)
    requires forall i | 0 <= i < |es| :: es[i] in slots
    ensures |items| <= |es|
    ensures forall i | 0 <= i < |es| && slots[es[i]].Live? :: slots[es[i]].item in items
    ensures forall j | 0 <= j < |items| :: exists i :: 0 <= i < |es| && slots[es[i]] == Live(items[j])
  {
    if es == [] then []
    else
      var last := es[|es| - 1];
      var init := LiveItems(es[..|es| - 1], slots);
      assert forall i | 0 <= i < |es| - 1 :: es[..|es| - 1][i] == es[i];
      init + (if slots[last].Live? then [slots[last].item] else [])
  }

  /** The value `pop` has accumulated once it has taken the entries `es`: tombstones add nothing. */
  function Value<Item>(categories: Option<seq<Category>>, ratios: Option<seq<real>>,
                       es: seq<Entry>, slots: map<Entry, Payload<Item>>): (v: real)
    requires forall i | 0 <= i < |es| :: es[i] in slots && Selected(categories, es[i].category)
    requires Weighted(categories, ratios) ==> |ratios.value| >= |categories.value|
  {
    if es == [] then 0.0
    else
      var last := es[|es| - 1];
      Value(categories, ratios, es[..|es| - 1], slots)
      + (if slots[last].Live? then Weight(categories, ratios, last.category) else 0.0)
  }

  /**
   * `after` is `before` without the entries `taken`, which came from the
   * selected categories earliest first, the last of them earlier than every
   * entry of a selected category still left.
   */
  ghost predicate Drained<Item>(categories: Option<seq<Category>>, before: map<Entry, Payload<Item>>,
                                taken: seq<Entry>, after: map<Entry, Payload<Item>>) {
    && (forall i | 0 <= i < |taken| :: taken[i] in before && Selected(categories, taken[i].category))
    && (forall i | 0 < i < |taken| :: Lt(taken[i - 1], taken[i]))
    && (|taken| > 0 ==> forall e | e in after && Selected(categories, e.category) :: Lt(taken[|taken| - 1], e))
    && after.Keys <= before.Keys
    && (forall e | e in before :: e in after <==> e !in taken)
    && (forall e | e in after :: after[e] == before[e])
  }

  /** `Lt` is transitive: the order on (priority, sequence) pairs is lexicographic. */
  lemma LtTrans(a: Entry, b: Entry, c: Entry)
    requires Lt(a, b) && Lt(b, c)
    ensures Lt(a, c)
  {
  }

  /**
   * What a drain promises in full: the entries were taken in strictly
   * increasing order, and each of them is earlier than every entry of a
   * selected category still left.
   */
  lemma {:induction false} DrainedInOrder<Item>(categories: Option<seq<Category>>, before: map<Entry, Payload<Item>>,
                                                taken: seq<Entry>, after: map<Entry, Payload<Item>>)
    requires Drained(categories, before, taken, after)
    ensures forall i, j | 0 <= i < j < |taken| :: Lt(taken[i], taken[j])
    ensures forall i, e | 0 <= i < |taken| && e in after && Selected(categories, e.category) :: Lt(taken[i], e)
  {
    forall i, j | 0 <= i < j < |taken|
      ensures Lt(taken[i], taken[j])
    {
      IncreasingFrom(taken, i, j);
    }
    forall i, e | 0 <= i < |taken| && e in after && Selected(categories, e.category)
      ensures Lt(taken[i], e)
    {
      if i < |taken| - 1 {
        IncreasingFrom(taken, i, |taken| - 1);
        LtTrans(taken[i], taken[|taken| - 1], e);
      }
    }
  }

  /** A sequence whose neighbours are increasing is increasing between any two positions. */
  lemma {:induction false} IncreasingFrom(s: seq<Entry>, i: nat, j: nat)
    requires forall k | 0 < k < |s| :: Lt(s[k - 1], s[k])
    requires i < j < |s|
    ensures Lt(s[i], s[j])
    decreases j - i
  {
    if i + 1 < j {
      IncreasingFrom(s, i, j - 1);
      LtTrans(s[i], s[j - 1], s[j]);
    }
  }

  /** Taking the earliest remaining entry of the selected categories extends the drain by that entry. */
  lemma DrainedStep<Item>(categories: Option<seq<Category>>, before: map<Entry, Payload<Item>>,
                          taken: seq<Entry>, after: map<Entry, Payload<Item>>, top: Entry)
    requires Drained(categories, before, taken, after)
    requires top in after && Selected(categories, top.category)
    requires forall e | e in after && e != top && Selected(categories, e.category) :: Lt(top, e)
    ensures after[top] == before[top]
    ensures Drained(categories, before, taken + [top], after - {top})
  {
    var taken', after' := taken + [top], after - {top};
    forall i | 0 < i < |taken'|
      ensures Lt(taken'[i - 1], taken'[i])
    {
      if i == |taken| {
        assert taken'[i - 1] == taken[|taken| - 1];
      } else {
        assert taken'[i - 1] == taken[i - 1] && taken'[i] == taken[i];
      }
    }
    forall e | e in before
      ensures e in after' <==> e !in taken'
    {
      assert e in taken' <==> e in taken || e == top;
    }
  }

  /** `after` is the dictionary `before` without the keys in `gone`, the values unchanged. */
  ghost predicate Unregistered<Item>(before: map<Item, Entry>, gone: seq<Item>, after: map<Item, Entry>) {
    && (forall x | x in after :: x in before && x !in gone && after[x] == before[x])
    && (forall x | x in before && x !in gone :: x in after)
  }

  /** Taking one more entry appends its item, if it has one, and adds its weight. */
  lemma TakeOneMore<Item>(categories: Option<seq<Category>>, ratios: Option<seq<real>>,
                          es: seq<Entry>, e: Entry, slots: map<Entry, Payload<Item>>)
    requires forall i | 0 <= i < |es| :: es[i] in slots && Selected(categories, es[i].category)
    requires e in slots && Selected(categories, e.category)
    requires Weighted(categories, ratios) ==> |ratios.value| >= |categories.value|
    ensures (es + [e])[..|es|] == es
    ensures LiveItems(es + [e], slots) == LiveItems(es, slots) + (if slots[e].Live? then [slots[e].item] else [])
    ensures Value(categories, ratios, es + [e], slots)
            == Value(categories, ratios, es, slots) + (if slots[e].Live? then Weight(categories, ratios, e.category) else 0.0)
  {
    assert (es + [e])[..|es|] == es;
  }

  /** Without ratios every returned item counts one and every tombstone nothing. */
  lemma {:induction false} UnitWeights<Item>(categories: Option<seq<Category>>, ratios: Option<seq<real>>,
                                             es: seq<Entry>, slots: map<Entry, Payload<Item>>)
    requires !Weighted(categories, ratios)
    requires forall i | 0 <= i < |es| :: es[i] in slots && Selected(categories, es[i].category)
    ensures Value(categories, ratios, es, slots) == |LiveItems(es, slots)| as real
  {
    if es != [] {
      UnitWeights(categories, ratios, es[..|es| - 1], slots);
    }
  }

  /** Tombstones add nothing: a drain that met only discarded entries has accumulated no value. */
  lemma {:induction false} TombstonesWeighNothing<Item>(categories: Option<seq<Category>>, ratios: Option<seq<real>>,
                                                        es: seq<Entry>, slots: map<Entry, Payload<Item>>)
    requires forall i | 0 <= i < |es| :: es[i] in slots && Selected(categories, es[i].category)
    requires Weighted(categories, ratios) ==> |ratios.value| >= |categories.value|
    requires forall i | 0 <= i < |es| :: slots[es[i]].Tombstone?
    ensures Value(categories, ratios, es, slots) == 0.0
  {
    if es != [] {
      TombstonesWeighNothing(categories, ratios, es[..|es| - 1], slots);
    }
  }

  /**
   * Without ratios, a pop that went on only while fewer than `count` items had
   * been returned returns at most `count` of them.
   */
  lemma UnweightedCount<Item>(categories: Option<seq<Category>>, ratios: Option<seq<real>>,
                              es: seq<Entry>, slots: map<Entry, Payload<Item>>, count: int)
    requires !Weighted(categories, ratios) && count > 0
    requires forall i | 0 <= i < |es| :: es[i] in slots && Selected(categories, es[i].category)
    requires |es| > 0 ==> Value(categories, ratios, es[..|es| - 1], slots) < count as real
    ensures |LiveItems(es, slots)| <= count
  {
    if es != [] {
      UnitWeights(categories, ratios, es[..|es| - 1], slots);
    }
  }

  /**
   * The peek and `min` of `_pop` (queue.py:105-108): the category whose heap
   * head is earliest among the non-empty selected heaps, or None when all of
   * them are empty.
   */
  method EarliestHead(heaps: map<Category, seq<Entry>>, categories: Option<seq<Category>>) returns (best: Option<Category>)
    ensures best.None? <==> forall c | c in heaps && Selected(categories, c) :: heaps[c] == []
    ensures best.Some? ==> best.value in heaps && Selected(categories, best.value) && heaps[best.value] != []
    ensures best.Some? ==>
              forall c | c in heaps && Selected(categories, c) && heaps[c] != [] :: Le(heaps[best.value][0], heaps[c][0])
  {
    best := None;
    var todo := heaps.Keys;
    while todo != {}
      invariant todo <= heaps.Keys
      invariant best.None? ==> forall c | c in heaps && c !in todo && Selected(categories, c) :: heaps[c] == []
      invariant best.Some? ==> best.value in heaps && Selected(categories, best.value) && heaps[best.value] != []
      invariant best.Some? ==>
                  forall c | c in heaps && c !in todo && Selected(categories, c) && heaps[c] != [] ::
                    Le(heaps[best.value][0], heaps[c][0])
      decreases |todo|
    {
      var c :| c in todo;
      if Selected(categories, c) && heaps[c] != [] && (best.None? || Lt(heaps[c][0], heaps[best.value][0])) {
        best := Some(c);
      }
      todo := todo - {c};
    }
  }

  /**
   * The earliest head of the selected heaps is no later than any filed entry of
   * a selected category, so `_pop` removes the least entry among them.
   */
  lemma EarliestIsLeast(heaps: map<Category, seq<Entry>>, filed: set<Entry>, issued: map<nat, Entry>, counter: nat,
                        categories: Option<seq<Category>>, c: Category)
    requires WellFiled(heaps, filed, issued, counter)
    requires c in heaps && heaps[c] != [] && Selected(categories, c)
    requires forall d | d in heaps && Selected(categories, d) && heaps[d] != [] :: Le(heaps[c][0], heaps[d][0])
    ensures forall e | e in filed && Selected(categories, e.category) :: Le(heaps[c][0], e)
  {
    forall e | e in filed && Selected(categories, e.category)
      ensures Le(heaps[c][0], e)
    {
      FiledInHeaps(heaps, filed, issued, counter);
      HeadIsLeast(heaps[e.category]);
    }
  }

  /**
   * The entry `_pop` removes is strictly earlier than every other filed entry
   * of a selected category: FIFO among equal priorities, across categories.
   */
  lemma EarliestIsFirst(heaps: map<Category, seq<Entry>>, filed: set<Entry>, issued: map<nat, Entry>, counter: nat,
                        categories: Option<seq<Category>>, c: Category)
    requires WellFiled(heaps, filed, issued, counter)
    requires c in heaps && heaps[c] != [] && Selected(categories, c)
    requires forall d | d in heaps && Selected(categories, d) && heaps[d] != [] :: Le(heaps[c][0], heaps[d][0])
    ensures forall e | e in filed && e != heaps[c][0] && Selected(categories, e.category) :: Lt(heaps[c][0], e)
  {
    FiledInHeaps(heaps, filed, issued, counter);
    EarliestIsLeast(heaps, filed, issued, counter, categories, c);
    forall e | e in filed && e != heaps[c][0] && Selected(categories, e.category)
      ensures Lt(heaps[c][0], e)
    {
      FiledOrder(heaps, filed, issued, counter, heaps[c][0], e);
    }
  }

  /**
   * Where `pop` stands after taking the entries `taken` from a queue whose
   * fields were `slots0`, `lookup0`, `size0`, `truesize0` and `heaps0`
   * (queue.py:86-97): the items of the live ones were collected and
   * unregistered, the counts dropped by as many, the heaps of categories not
   * selected are untouched, `value` is what the items are worth, and the
   * value before the last entry was taken was still below `bound`.
   */
  ghost predicate Progress<Item>(categories: Option<seq<Category>>, ratios: Option<seq<real>>,
                                 slots0: map<Entry, Payload<Item>>, lookup0: map<Item, Entry>,
                                 size0: int, truesize0: int, heaps0: map<Category, seq<Entry>>,
                                 bound: real, taken: seq<Entry>, items: seq<Item>, value: real,
                                 slots: map<Entry, Payload<Item>>, lookup: map<Item, Entry>,
                                 size: int, truesize: int, heaps: map<Category, seq<Entry>>)
    requires Weighted(categories, ratios) ==> |ratios.value| >= |categories.value|
  {
    && Drained(categories, slots0, taken, slots)
    && items == LiveItems(taken, slots0)
    && Unregistered(lookup0, items, lookup)
    && truesize == truesize0 - |taken|
    && size == size0 - |items|
    && heaps.Keys == heaps0.Keys
    && (forall c | c in heaps0 && !Selected(categories, c) :: heaps[c] == heaps0[c])
    && value == Value(categories, ratios, taken, slots0)
    && (|taken| > 0 ==> Value(categories, ratios, taken[..|taken| - 1], slots0) < bound)
    && BelowBefore(categories, ratios, taken, slots0, bound)
  }

  /**
   * The loop test `value < threshold` held before each entry of `es` was
   * taken: every proper prefix of `es` had accumulated less than `bound`.
   */
  ghost predicate BelowBefore<Item>(categories: Option<seq<Category>>, ratios: Option<seq<real>>,
                                    es: seq<Entry>, slots: map<Entry, Payload<Item>>, bound: real)
    requires forall i | 0 <= i < |es| :: es[i] in slots && Selected(categories, es[i].category)
    requires Weighted(categories, ratios) ==> |ratios.value| >= |categories.value|
  {
    forall k | 0 <= k < |es| :: Value(categories, ratios, es[..k], slots) < bound
  }

  /** Taking one more entry while the value is still below `bound` keeps every proper prefix below it. */
  lemma BelowStep<Item>(categories: Option<seq<Category>>, ratios: Option<seq<real>>,
                        es: seq<Entry>, e: Entry, slots: map<Entry, Payload<Item>>, bound: real)
    requires forall i | 0 <= i < |es| :: es[i] in slots && Selected(categories, es[i].category)
    requires e in slots && Selected(categories, e.category)
    requires Weighted(categories, ratios) ==> |ratios.value| >= |categories.value|
    requires BelowBefore(categories, ratios, es, slots, bound)
    requires Value(categories, ratios, es, slots) < bound
    ensures BelowBefore(categories, ratios, es + [e], slots, bound)
  {
    var es' := es + [e];
    forall k | 0 <= k < |es'|
      ensures Value(categories, ratios, es'[..k], slots) < bound
    {
      if k == |es| {
        assert es'[..k] == es;
      } else {
        assert es'[..k] == es[..k];
      }
    }
  }

  /**
   * One turn of the loop of `pop`: removing the earliest remaining entry
   * `top` of the selected categories, with its item when it is live, extends
   * the progress by that entry and adds the item's weight to the value.
   */
  lemma ProgressStep<Item>(categories: Option<seq<Category>>, ratios: Option<seq<real>>,
                           slots0: map<Entry, Payload<Item>>, lookup0: map<Item, Entry>,
                           size0: int, truesize0: int, heaps0: map<Category, seq<Entry>>,
                           bound: real, taken: seq<Entry>, items: seq<Item>, value: real,
                           slots: map<Entry, Payload<Item>>, lookup: map<Item, Entry>,
                           size: int, truesize: int, heaps: map<Category, seq<Entry>>,
                           top: Entry, slot: Payload<Item>,
                           lookup': map<Item, Entry>, size': int, heaps': map<Category, seq<Entry>>)
    requires Weighted(categories, ratios) ==> |ratios.value| >= |categories.value|
    requires Progress(categories, ratios, slots0, lookup0, size0, truesize0, heaps0,
                      bound, taken, items, value, slots, lookup, size, truesize, heaps)
    requires value < bound
    requires top in slots && slot == slots[top] && Selected(categories, top.category)
    requires forall e | e in slots && e != top && Selected(categories, e.category) :: Lt(top, e)
    requires heaps'.Keys == heaps.Keys
    requires forall c | c in heaps && c != top.category :: heaps'[c] == heaps[c]
    requires slot.Live? ==> slot.item in lookup && lookup' == lookup - {slot.item} && size' == size - 1
    requires slot.Tombstone? ==> lookup' == lookup && size' == size
    ensures slot == slots0[top]
    ensures Progress(categories, ratios, slots0, lookup0, size0, truesize0, heaps0,
                     bound, taken + [top], items + (if slot.Live? then [slot.item] else []),
                     value + (if slot.Live? then Weight(categories, ratios, top.category) else 0.0),
                     slots - {top}, lookup', size', truesize - 1, heaps')
  {
    DrainedStep(categories, slots0, taken, slots, top);
    TakeOneMore(categories, ratios, taken, top, slots0);
    BelowStep(categories, ratios, taken, top, slots0, bound);
    UnregisteredStep(lookup0, items, lookup, slot, lookup');
  }

  /** Unregistering the item of a live slot, and nothing for a tombstone, extends the unregistered items by it. */
  lemma UnregisteredStep<Item>(before: map<Item, Entry>, gone: seq<Item>, after: map<Item, Entry>,
                               slot: Payload<Item>, after': map<Item, Entry>)
    requires Unregistered(before, gone, after)
    requires slot.Live? ==> slot.item in after && after' == after - {slot.item}
    requires slot.Tombstone? ==> after' == after
    ensures Unregistered(before, gone + (if slot.Live? then [slot.item] else []), after')
  {
    var gone' := gone + (if slot.Live? then [slot.item] else []);
    forall x | x in before && x !in gone'
      ensures x in after'
    {
      assert x !in gone;
    }
  }
}
