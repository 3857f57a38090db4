/**
  The context budget engine: gives each candidate, in order of relevance, the richest layer
  that fits what is left of a token budget.
 */
module ContextBudget {
  import opened Wrappers
  import opened ContextLoader

  datatype Item = Item(cid: Cid, layer: Layer, tokens: nat)

  /** What becomes of a candidate: a layer, nothing, or a panic that ends the whole assembly. */
  datatype Choice = Chosen(layer: Layer) | Skipped | Crash

  function Cost(shelf: Shelf, cid: Cid, layer: Layer): Option<nat> {
    var text := Text(shelf, cid, layer);
    if text.Has? then Some(Tokens(text.text)) else None
  }

  /** The layer has something to say and there is room for it. */
  predicate Fits(shelf: Shelf, cid: Cid, layer: Layer, remaining: nat) {
    var cost := Cost(shelf, cid, layer);
    cost.Some? && 1 <= cost.value <= remaining
  }

  /** There is room for the layer, even if it is empty. */
  predicate Room(shelf: Shelf, cid: Cid, layer: Layer, remaining: nat) {
    var cost := Cost(shelf, cid, layer);
    cost.Some? && cost.value <= remaining
  }

  function PickedLayer(shelf: Shelf, cid: Cid, remaining: nat): Choice {
    if remaining >= TokensApprox(L2) || Fits(shelf, cid, L2, remaining) then Chosen(L2)
    else if remaining >= TokensApprox(L1) then Chosen(L1)
    else if Text(shelf, cid, L1).Panics? then Crash
    else if Fits(shelf, cid, L1, remaining) then Chosen(L1)
    else if Text(shelf, cid, L0).Panics? then Crash
    else if Fits(shelf, cid, L0, remaining) then Chosen(L0)
    else Skipped
  }

  /** The layer a candidate ends up with, if any. */
  function ChosenLayer(shelf: Shelf, cid: Cid, remaining: nat): (choice: Choice)
    ensures choice.Chosen? ==> Room(shelf, cid, choice.layer, remaining)
  {
    var picked := PickedLayer(shelf, cid, remaining);
    if !picked.Chosen? then picked
    else
      match Text(shelf, cid, picked.layer)
      case Panics => Crash
      case Missing => Skipped
      case Has(_) =>
        if Room(shelf, cid, picked.layer, remaining) then picked
        else if picked.layer == L0 then Skipped
        else if Text(shelf, cid, L0).Panics? then Crash
        else if Room(shelf, cid, L0, remaining) then Chosen(L0)
        else Skipped
  }

  /** What a run over the candidates includes, unless it panics. */
  function Assembled(shelf: Shelf, cids: seq<Cid>, remaining: nat): Option<seq<Item>>
    decreases |cids|
  {
    if |cids| == 0 || remaining == 0 then Some([])
    else
      match ChosenLayer(shelf, cids[0], remaining)
      case Crash => None
      case Skipped => Assembled(shelf, cids[1..], remaining)
      case Chosen(layer) =>
        var cost := Cost(shelf, cids[0], layer).value;
        var rest := Assembled(shelf, cids[1..], remaining - cost);
        if rest.None? then None else Some([Item(cids[0], layer, cost)] + rest.value)
  }

  function Total(items: seq<Item>): nat {
    if |items| == 0 then 0 else items[0].tokens + Total(items[1..])
  }

  /** What is left of the budget when the candidates have been gone through. */
  function Left(shelf: Shelf, cids: seq<Cid>, remaining: nat): int
    requires Assembled(shelf, cids, remaining).Some?
  {
    remaining - Total(Assembled(shelf, cids, remaining).value)
  }

  /** The items are the candidates at some increasing positions. */
  ghost predicate InOrder(items: seq<Item>, cids: seq<Cid>) {
    if |items| == 0 then true
    else if |cids| == 0 then false
    else (items[0].cid == cids[0] && InOrder(items[1..], cids[1..])) || InOrder(items, cids[1..])
  }

  // One candidate

  /** A candidate crashes the assembly exactly if its full text does not fit and its L1 cannot be loaded. */
  lemma CrashExact(shelf: Shelf, cid: Cid, remaining: nat)
    requires 0 < remaining < USIZE_MAX
    ensures ChosenLayer(shelf, cid, remaining).Crash?
       <==> !Fits(shelf, cid, L2, remaining) && (!Splits(cid) || CutInside(shelf, cid))
  {
    hide Text, Splits, CutInside, Tokens;
    PanicExact(shelf, cid);
    if ChosenLayer(shelf, cid, remaining) == Crash {
      assert Text(shelf, cid, L1).Panics? || Text(shelf, cid, L0).Panics?;
    }
  }

  /** Which layer a candidate gets below the limit where L2 is taken unseen. */
  lemma ChoiceExact(shelf: Shelf, cid: Cid, remaining: nat)
    requires 0 < remaining < USIZE_MAX
    ensures var got := ChosenLayer(shelf, cid, remaining);
            && (got == Chosen(L2) <==> Fits(shelf, cid, L2, remaining))
            && (got.Skipped? ==> forall layer :: !Fits(shelf, cid, layer, remaining))
            && (remaining < 2000 && !got.Crash? ==>
                  && (got.Skipped? <==> forall layer :: !Fits(shelf, cid, layer, remaining))
                  && (got == Chosen(L1) <==> Fits(shelf, cid, L1, remaining) && !Fits(shelf, cid, L2, remaining))
                  && (got.Chosen? ==> Fits(shelf, cid, got.layer, remaining)))
            && (remaining >= 2000 && !got.Crash? ==>
                  && (got == Chosen(L1) <==> !Fits(shelf, cid, L2, remaining) && Room(shelf, cid, L1, remaining))
                  && (got == Chosen(L0) <==>
                      && !Fits(shelf, cid, L2, remaining) && !Room(shelf, cid, L1, remaining)
                      && Room(shelf, cid, L0, remaining))
                  && (got.Skipped? <==>
                      && !Fits(shelf, cid, L2, remaining) && !Room(shelf, cid, L1, remaining)
                      && !Room(shelf, cid, L0, remaining)))
            && (got.Chosen? ==> Room(shelf, cid, got.layer, remaining))
  {
    hide Text, Tokens;
    PanicExact(shelf, cid);
    if ChosenLayer(shelf, cid, remaining).Skipped? {
      forall layer: Layer
        ensures !Fits(shelf, cid, layer, remaining)
      {
        match layer
        case L0 =>
        case L1 =>
        case L2 =>
      }
    }
  }

  /**
    Content with an estimate of 0 is meant to be rejected.  It is included exactly when the full
    text does not fit and the budget is large enough for L1 to be taken without a look at it.
   */
  lemma EmptyItemExact(shelf: Shelf, cid: Cid, remaining: nat)
    requires 0 < remaining < USIZE_MAX
    ensures var got := ChosenLayer(shelf, cid, remaining);
            got.Chosen? && Cost(shelf, cid, got.layer) == Some(0) <==>
            && remaining >= 2000
            && !Fits(shelf, cid, L2, remaining)
            && (|| Cost(shelf, cid, L1) == Some(0)
                || (Cost(shelf, cid, L1).Some? && !Room(shelf, cid, L1, remaining) && Cost(shelf, cid, L0) == Some(0)))
  {
    hide Tokens;
  }

  /** A candidate that is stored nowhere: an empty item under a large budget, nothing under a small one. */
  lemma MissingCandidate(shelf: Shelf, cid: Cid, remaining: nat)
    requires 0 < remaining < USIZE_MAX && shelf.summarizer.None?
    requires cid !in shelf.cache && cid !in shelf.summaries && cid !in shelf.sections && cid !in shelf.objects
    ensures ChosenLayer(shelf, cid, remaining) ==
            if !Splits(cid) then Crash else if remaining >= 2000 then Chosen(L1) else Skipped
    ensures Splits(cid) ==> Cost(shelf, cid, L1) == Some(0)
  {
    assert Words("") == [] && Bytes("") == 0;
  }

  // Whole runs

  /** The budget is never exceeded, and the items keep the order of the candidates. */
  lemma {:induction false} WithinBudget(shelf: Shelf, cids: seq<Cid>, remaining: nat)
    requires Assembled(shelf, cids, remaining).Some?
    ensures var items := Assembled(shelf, cids, remaining).value;
            Total(items) <= remaining && InOrder(items, cids) && |items| <= |cids|
    decreases |cids|
  {
    hide ChosenLayer, Cost;
    if |cids| > 0 && remaining > 0 {
      match ChosenLayer(shelf, cids[0], remaining)
      case Skipped =>
        WithinBudget(shelf, cids[1..], remaining);
      case Chosen(layer) =>
        WithinBudget(shelf, cids[1..], remaining - Cost(shelf, cids[0], layer).value);
    }
  }

  /** The run over more candidates, from the run over the first ones. */
  function Then(shelf: Shelf, items: seq<Item>, more: seq<Cid>, left: nat): Option<seq<Item>> {
    var rest := Assembled(shelf, more, left);
    if rest.None? then None else Some(items + rest.value)
  }

  /** More candidates only append: what comes first is decided without looking at what comes later. */
  lemma {:induction false} Extends(shelf: Shelf, cids: seq<Cid>, more: seq<Cid>, remaining: nat)
    ensures Assembled(shelf, cids, remaining).None? ==> Assembled(shelf, cids + more, remaining).None?
    ensures Assembled(shelf, cids, remaining).Some? ==>
              var left := Left(shelf, cids, remaining);
              && left >= 0
              && Assembled(shelf, cids + more, remaining) ==
                 Then(shelf, Assembled(shelf, cids, remaining).value, more, left)
    decreases |cids|
  {
    hide ChosenLayer, Cost;
    if Assembled(shelf, cids, remaining).Some? {
      WithinBudget(shelf, cids, remaining);
    }
    assert forall last: seq<Item> :: [] + last == last;
    if |cids| == 0 {
      assert cids + more == more;
    } else if remaining > 0 {
      assert (cids + more)[1..] == cids[1..] + more;
      match ChosenLayer(shelf, cids[0], remaining)
      case Crash =>
      case Skipped =>
        Extends(shelf, cids[1..], more, remaining);
      case Chosen(layer) =>
        var cost := Cost(shelf, cids[0], layer).value;
        Extends(shelf, cids[1..], more, remaining - cost);
        if Assembled(shelf, cids, remaining).Some? {
          ExtendsChosen(shelf, cids, remaining, layer);
          var first, rest := [Item(cids[0], layer, cost)], Assembled(shelf, cids[1..], remaining - cost).value;
          assert forall last: seq<Item> :: first + (rest + last) == first + rest + last;
        }
    }
  }

  lemma ExtendsChosen(shelf: Shelf, cids: seq<Cid>, remaining: nat, layer: Layer)
    requires |cids| > 0 && remaining > 0 && ChosenLayer(shelf, cids[0], remaining) == Chosen(layer)
    requires Assembled(shelf, cids, remaining).Some?
    ensures var cost := Cost(shelf, cids[0], layer).value;
            && Assembled(shelf, cids[1..], remaining - cost).Some?
            && Left(shelf, cids, remaining) == Left(shelf, cids[1..], remaining - cost)
  {
    hide ChosenLayer, Cost;
  }

  lemma Single(shelf: Shelf, cid: Cid, remaining: nat)
    ensures Assembled(shelf, [cid], remaining) ==
            if remaining == 0 then Some([])
            else
              match ChosenLayer(shelf, cid, remaining)
              case Crash => None
              case Skipped => Some([])
              case Chosen(layer) => Some([Item(cid, layer, Cost(shelf, cid, layer).value)])
  {
    hide ChosenLayer, Cost;
    assert forall n: nat :: Assembled(shelf, [cid][1..], n) == Some([]);
    match ChosenLayer(shelf, cid, remaining)
    case Chosen(layer) =>
      var item := [Item(cid, layer, Cost(shelf, cid, layer).value)];
      assert item + [] == item;
    case _ =>
  }

  /** The assembly gets as far as candidate `i` with some budget left. */
  ghost predicate Reaches(shelf: Shelf, cids: seq<Cid>, i: nat, remaining: nat)
    requires i < |cids|
  {
    Assembled(shelf, cids[..i], remaining).Some? && Left(shelf, cids[..i], remaining) > 0
  }

  /**
    Every candidate, by its position in the list: while some budget is left it adds its
    chosen layer to the items of the ones before it, or nothing, or it ends the assembly.
   */
  lemma Reached(shelf: Shelf, cids: seq<Cid>, i: nat, remaining: nat)
    requires i < |cids| && Assembled(shelf, cids[..i], remaining).Some?
    ensures var before := Assembled(shelf, cids[..i], remaining).value;
            var left := Left(shelf, cids[..i], remaining);
            && left >= 0
            && (Assembled(shelf, cids, remaining).Some? ==> before <= Assembled(shelf, cids, remaining).value)
            && Assembled(shelf, cids[..i + 1], remaining) ==
               if left == 0 then Some(before)
               else
                 match ChosenLayer(shelf, cids[i], left)
                 case Crash => None
                 case Skipped => Some(before)
                 case Chosen(layer) => Some(before + [Item(cids[i], layer, Cost(shelf, cids[i], layer).value)])
  {
    hide ChosenLayer, Cost;
    Extends(shelf, cids[..i], cids[i..], remaining);
    assert cids[..i] + cids[i..] == cids;
    Extends(shelf, cids[..i], [cids[i]], remaining);
    assert cids[..i + 1] == cids[..i] + [cids[i]];
    var before := Assembled(shelf, cids[..i], remaining).value;
    assert before + [] == before;
    Single(shelf, cids[i], Left(shelf, cids[..i], remaining));
  }

  /** An assembly panics exactly if some candidate that it reaches crashes it. */
  lemma PanicsExact(shelf: Shelf, cids: seq<Cid>, remaining: nat)
    ensures Assembled(shelf, cids, remaining).None? <==>
            exists i: nat ::
              && i < |cids| && Reaches(shelf, cids, i, remaining)
              && ChosenLayer(shelf, cids[i], Left(shelf, cids[..i], remaining)).Crash?
  {
    hide ChosenLayer, Assembled;
    if Assembled(shelf, cids, remaining).None? {
      assert cids[..|cids|] == cids;
      var i := FirstPanic(shelf, cids, |cids|, remaining);
    }
    forall i: nat | && i < |cids| && Reaches(shelf, cids, i, remaining)
                    && ChosenLayer(shelf, cids[i], Left(shelf, cids[..i], remaining)).Crash?
      ensures Assembled(shelf, cids, remaining).None?
    {
      Reached(shelf, cids, i, remaining);
      Extends(shelf, cids[..i + 1], cids[i + 1..], remaining);
      assert cids[..i + 1] + cids[i + 1..] == cids;
    }
  }

  lemma {:induction false} FirstPanic(shelf: Shelf, cids: seq<Cid>, n: nat, remaining: nat) returns (i: nat)
    requires n <= |cids| && Assembled(shelf, cids[..n], remaining).None?
    ensures i < n && Reaches(shelf, cids, i, remaining)
    ensures ChosenLayer(shelf, cids[i], Left(shelf, cids[..i], remaining)).Crash?
    decreases n
  {
    hide ChosenLayer;
    if Assembled(shelf, cids[..n - 1], remaining).None? {
      i := FirstPanic(shelf, cids, n - 1, remaining);
    } else {
      i := n - 1;
      Reached(shelf, cids, i, remaining);
    }
  }

  /**
    An assembly panics exactly if it reaches a candidate whose full text does not fit and whose
    L1 would be cut inside a character, or whose cid does not split.
   */
  lemma AssemblyPanics(shelf: Shelf, cids: seq<Cid>, budget: nat)
    requires budget < USIZE_MAX
    ensures Assembled(shelf, cids, budget).None? <==>
            exists i: nat ::
              && i < |cids| && Reaches(shelf, cids, i, budget)
              && !Fits(shelf, cids[i], L2, Left(shelf, cids[..i], budget))
              && (!Splits(cids[i]) || CutInside(shelf, cids[i]))
  {
    hide ChosenLayer, Assembled, Fits, Splits, CutInside;
    PanicsExact(shelf, cids, budget);
    forall i: nat | i < |cids| && Reaches(shelf, cids, i, budget)
      ensures ChosenLayer(shelf, cids[i], Left(shelf, cids[..i], budget)).Crash? <==>
              && !Fits(shelf, cids[i], L2, Left(shelf, cids[..i], budget))
              && (!Splits(cids[i]) || CutInside(shelf, cids[i]))
    {
      CrashExact(shelf, cids[i], Left(shelf, cids[..i], budget));
    }
  }

  /** A text in a script of three bytes a character, such as Chinese, without white space. */
  predicate Wide(text: string) {
    forall i :: 0 <= i < |text| ==> Width(text[i]) == 3 && !White(text[i])
  }

  lemma {:induction false} WideBytes(text: string, n: nat)
    requires Wide(text) && n <= |text|
    ensures Bytes(text[..n]) == 3 * n
  {
    if n > 0 {
      BytesNext(text, n);
      WideBytes(text[1..], n - 1);
    }
  }

  lemma Chinese(n: nat)
    ensures Wide(seq(n, _ => '\U{4E16}'))
  {
  }

  /**
    Such a text of more than 8000 bytes, stored without a summary of it and without a
    summarizer, makes every assembly panic that comes to it with any budget left.
   */
  lemma WidePanics(shelf: Shelf, cids: seq<Cid>, i: nat, budget: nat)
    requires budget < USIZE_MAX && i < |cids| && Reaches(shelf, cids, i, budget)
    requires cids[i] in shelf.objects && cids[i] !in shelf.sections && shelf.summarizer.None?
    requires Wide(shelf.objects[cids[i]]) && 3 * |shelf.objects[cids[i]]| > L1_BYTE_LIMIT
    ensures CutInside(shelf, cids[i]) && Cost(shelf, cids[i], L2) == Some(0)
    ensures Assembled(shelf, cids, budget).None?
  {
    hide Assembled, ChosenLayer;
    WideInside(shelf.objects[cids[i]]);
    AssemblyPanics(shelf, cids, budget);
  }

  lemma WideInside(text: string)
    requires Wide(text) && 3 * |text| > L1_BYTE_LIMIT
    ensures Bytes(text) > L1_BYTE_LIMIT && Inside(text, L1_BYTE_LIMIT) && Tokens(text) == 0
  {
    assert text[..|text|] == text && text + "" == text && "" + text == text;
    WideBytes(text, |text|);
    WideBytes(text, 2666);
    WideBytes(text, 2667);
    assert Bytes(text[..2666]) < L1_BYTE_LIMIT < Bytes(text[..2666 + 1]);
    SplitWord(text, "", "");
    assert Words(text) == [text];
  }

  // The loop

  /** Once the budget is spent nothing more is added. */
  lemma Spent(shelf: Shelf, cids: seq<Cid>, i: nat, remaining: nat)
    requires i <= |cids| && Assembled(shelf, cids[..i], remaining).Some? && Left(shelf, cids[..i], remaining) == 0
    ensures Assembled(shelf, cids, remaining) == Assembled(shelf, cids[..i], remaining)
  {
    hide ChosenLayer;
    Extends(shelf, cids[..i], cids[i..], remaining);
    var items := Assembled(shelf, cids[..i], remaining).value;
    assert cids[..i] + cids[i..] == cids && items + [] == items;
  }

  lemma {:induction false} TotalAppend(a: seq<Item>, b: seq<Item>)
    ensures Total(a + b) == Total(a) + Total(b)
  {
    if |a| == 0 {
      assert a + b == b;
    } else {
      assert (a + b)[1..] == a[1..] + b;
      TotalAppend(a[1..], b);
    }
  }

  lemma Nothing(shelf: Shelf, cids: seq<Cid>, remaining: nat)
    requires |cids| == 0
    ensures Assembled(shelf, cids, remaining) == Some([])
  {
  }

  lemma SameChoice(a: Shelf, b: Shelf, cid: Cid, remaining: nat)
    requires SameTexts(a, b)
    ensures PickedLayer(a, cid, remaining) == PickedLayer(b, cid, remaining)
    ensures ChosenLayer(a, cid, remaining) == ChosenLayer(b, cid, remaining)
    ensures forall layer :: Cost(a, cid, layer) == Cost(b, cid, layer)
  {
    hide Text, Tokens;
    assert forall layer :: Text(a, cid, layer) == Text(b, cid, layer);
  }

  function AsItem(loaded: Loaded): Item {
    Item(loaded.cid, loaded.layer, loaded.tokens)
  }

  function AsItems(loaded: seq<Loaded>): seq<Item> {
    seq(|loaded|, i requires 0 <= i < |loaded| => AsItem(loaded[i]))
  }

  method PickLayer(loader: Loader, cid: Cid, remaining: nat) returns (choice: Choice)
    modifies loader
    ensures SameTexts(old(loader.shelf), loader.shelf)
    ensures choice == PickedLayer(old(loader.shelf), cid, remaining)
    ensures choice == Chosen(L0) ==> cid in loader.shelf.cache
  {
    hide Text, Tokens;
    if remaining >= TokensApprox(L2) {
      return Chosen(L2);
    }
    var l2 := loader.Load(cid, L2);
    if l2.Got? && 0 < l2.loaded.tokens <= remaining {
      return Chosen(L2);
    }
    if remaining >= TokensApprox(L1) {
      return Chosen(L1);
    }
    var l1 := loader.Load(cid, L1);
    if l1.Panicked? {
      return Crash;
    }
    if l1.Got? && 0 < l1.loaded.tokens <= remaining {
      return Chosen(L1);
    }
    var l0 := loader.Load(cid, L0);
    if l0.Panicked? {
      return Crash;
    }
    if l0.Got? && 0 < l0.loaded.tokens <= remaining {
      return Chosen(L0);
    }
    return Skipped;
  }

  /** The item that a choice stands for, with its content. */
  predicate Yields(item: Outcome, shelf: Shelf, cid: Cid, remaining: nat) {
    match ChosenLayer(shelf, cid, remaining)
    case Crash => item.Panicked?
    case Skipped => item.Failed?
    case Chosen(layer) => item.Got? && Reports(item, Text(shelf, cid, layer), cid, layer)
  }

  /**
    Loads one candidate.  A summary that was picked is never reported as degraded, whatever
    it was made from, because picking it has put it in the cache.
   */
  method Take(loader: Loader, cid: Cid, remaining: nat) returns (item: Outcome)
    modifies loader
    ensures SameTexts(old(loader.shelf), loader.shelf)
    ensures Yields(item, old(loader.shelf), cid, remaining)
    ensures item.Got? && remaining < TokensApprox(L1) ==> !item.loaded.degraded
  {
    hide Text, Tokens;
    var picked := PickLayer(loader, cid, remaining);
    if picked.Crash? {
      return Panicked;
    }
    if picked.Skipped? {
      return Failed;
    }
    item := loader.Load(cid, picked.layer);
    if !item.Got? || item.loaded.tokens <= remaining {
      return;
    }
    if picked.layer == L0 {
      return Failed;
    }
    item := loader.Load(cid, L0);
    if item.Got? && item.loaded.tokens > remaining {
      return Failed;
    }
  }

  /**
    The allocation, against the run over the texts as they were at the start; `None` if the
    process panics.
   */
  method Assemble(loader: Loader, cids: seq<Cid>, budget: nat) returns (items: Option<seq<Loaded>>, total: nat)
    modifies loader
    ensures SameTexts(old(loader.shelf), loader.shelf)
    ensures items.None? <==> Assembled(old(loader.shelf), cids, budget).None?
    ensures items.Some? ==>
              && Some(AsItems(items.value)) == Assembled(old(loader.shelf), cids, budget)
              && total == Total(AsItems(items.value)) <= budget
              && forall i :: 0 <= i < |items.value| ==>
                   Text(old(loader.shelf), items.value[i].cid, items.value[i].layer) == Has(items.value[i].content)
  {
    hide ChosenLayer, Assembled, Text, Tokens;
    ghost var shelf := loader.shelf;
    assert Assembled(shelf, cids[..0], budget) == Some([]) by { Nothing(shelf, cids[..0], budget); }
    var got: seq<Loaded> := [];
    assert AsItems(got) == [];
    var remaining := budget;
    for i := 0 to |cids|
      invariant SameTexts(shelf, loader.shelf)
      invariant Some(AsItems(got)) == Assembled(shelf, cids[..i], budget)
      invariant remaining == Left(shelf, cids[..i], budget)
      invariant forall k :: 0 <= k < |got| ==> Text(shelf, got[k].cid, got[k].layer) == Has(got[k].content)
    {
      Reached(shelf, cids, i, budget);
      if remaining == 0 {
        Spent(shelf, cids, i, budget);
        break;
      }
      SameChoice(shelf, loader.shelf, cids[i], remaining);
      var item := Take(loader, cids[i], remaining);
      if item.Panicked? {
        Extends(shelf, cids[..i + 1], cids[i + 1..], budget);
        assert cids[..i + 1] + cids[i + 1..] == cids;
        return None, 0;
      }
      if item.Got? {
        TotalAppend(AsItems(got), [AsItem(item.loaded)]);
        assert AsItems(got + [item.loaded]) == AsItems(got) + [AsItem(item.loaded)];
        remaining := remaining - item.loaded.tokens;
        got := got + [item.loaded];
      }
    }
    assert cids[..|cids|] == cids;
    WithinBudget(shelf, cids, budget);
    items, total := Some(got), Total(AsItems(got));
  }
}
