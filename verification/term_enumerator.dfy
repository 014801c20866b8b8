/**
 * The term generator `enumerate_terms()` (components/grammar.py), as a
 * resumable iterator: each call of `Next` runs the generator up to its next
 * `yield`.
 */
module TermEnumeration {
  import opened Wrappers
  import opened Grammar

  /** `t` is a recursive template of `templates` with every slot filled from `pool`. */
  ghost predicate FromTemplate(t: string, templates: seq<seq<string>>, pool: set<string>) {
    exists i, c :: 0 <= i < |templates| && FillsFrom(c, pool, |templates[i]| - 1) && t == MakeStr(templates[i], c)
  }

  /** `c` fills `k` slots with terms of `pool`. */
  ghost predicate FillsFrom(c: seq<string>, pool: set<string>, k: int) {
    |c| == k && forall j :: 0 <= j < |c| ==> c[j] in pool
  }

  /** `r` holds every way of filling `k` slots with terms of `pool`, and nothing else. */
  ghost predicate AllFillings(r: set<seq<string>>, pool: set<string>, k: int) {
    forall c :: c in r <==> FillsFrom(c, pool, k)
  }

  /** A round is `product(pool, repeat=k)`. */
  lemma AllFillingsAreCombos(r: set<seq<string>>, pool: set<string>, k: nat)
    requires AllFillings(r, pool, k)
    ensures r == Combos(pool, k)
  {
    forall c ensures c in r <==> c in Combos(pool, k) {
      CombosMembership(pool, k, c);
    }
  }

  class TermEnumerator {
    /** `non_recursive_terms()`, yielded first, in grammar order. */
    const nonRecursive: seq<string>
    /** The recursive templates, already split at their 'T' slots. */
    const templates: seq<seq<string>>
    /** How many non-recursive terms have been yielded. */
    var position: nat
    /** `seen_terms`: the non-recursive terms and every term yielded since. */
    var seen: set<string>
    /** Whether the recursive phase has started expanding a template. */
    var expanding: bool
    /** The template being expanded. */
    var active: nat
    /** The slot fillings of the active template not yet yielded (a snapshot of `seen` taken when it started). */
    var pending: set<seq<string>>
    /** Every term yielded so far, in order. */
    ghost var yielded: seq<string>
    /** The active template's `product(seen_terms, ...)`, taken when it started. */
    ghost var round: set<seq<string>>
    /** The fillings of `round` already yielded. */
    ghost var used: set<seq<string>>

    ghost predicate Valid()
      reads this
    {
      && Listed(nonRecursive, templates, position, seen, yielded)
      && InRound(templates, seen, expanding, active, pending, used, round)
    }

    /** What the generator has yielded so far, and which terms it has seen. */
    static ghost predicate Listed(nonRecursive: seq<string>, templates: seq<seq<string>>, position: nat,
                                  seen: set<string>, yielded: seq<string>)
    {
      && position <= |nonRecursive|
      && (forall i :: 0 <= i < |templates| ==> |templates[i]| >= 2)
      && (forall t :: t in nonRecursive ==> t in seen)
      && (position < |nonRecursive| ==> yielded == nonRecursive[..position] && forall t :: t in seen <==> t in nonRecursive)
      && (position == |nonRecursive| ==>
            |yielded| >= position && yielded[..position] == nonRecursive && forall t :: t in seen <==> t in yielded)
    }

    /** The active template's fillings: those still to come are drawn from `seen`, and with those used they make up the round. */
    static ghost predicate InRound(templates: seq<seq<string>>, seen: set<string>, expanding: bool, active: nat,
                                   pending: set<seq<string>>, used: set<seq<string>>, round: set<seq<string>>)
    {
      && (pending != {} ==> expanding)
      && (expanding ==> active < |templates|)
      && (expanding ==> forall c :: c in pending ==> FillsFrom(c, seen, |templates[active]| - 1))
      && pending !! used && pending + used == round
    }

    /** The template the `for term in recursive_terms` loop takes up next: the first, or the one after the active one, or the first again after the last. */
    function NextActive(): nat
      reads this
    {
      if expanding && active + 1 < |templates| then active + 1 else 0
    }

    /** The generator has left its first loop and its `while True` loop can never yield. */
    predicate Exhausted()
      reads this
    {
      position == |nonRecursive| && (templates == [] || nonRecursive == [])
    }

    /** A fresh generator: a new call of `enumerate_terms()` starts again from the first term. */
    constructor (g: Grammar)
      ensures Valid()
      ensures nonRecursive == NonRecursiveTerms(g) && templates == RecursiveTemplates(g)
      ensures position == 0 && yielded == []
    {
      nonRecursive := NonRecursiveTerms(g);
      templates := RecursiveTemplates(g);
      position := 0;
      seen := set t | t in NonRecursiveTerms(g);
      expanding := false;
      active := 0;
      pending := {};
      yielded := [];
      round := {};
      used := {};
    }

    /**
     * Runs the generator to its next `yield`. `None` means it never yields
     * again: with no recursive template, or no non-recursive term to fill a
     * slot with, the `while True` loop spins without yielding.
     */
    method Next() returns (t: Option<string>, ghost c: seq<string>)
      requires Valid()
      modifies this
      ensures Valid()
      ensures t.None? <==> old(Exhausted())
      ensures t.None? ==> Exhausted()
      ensures old(position) < |nonRecursive| ==> t == Some(nonRecursive[old(position)]) && seen == old(seen)
      ensures t.Some? ==> yielded == old(yielded) + [t.value]
      ensures t.None? ==> yielded == old(yielded) && seen == old(seen)
      ensures old(position) == |nonRecursive| && t.Some? ==>
        && seen == old(seen) + {t.value} && FromTemplate(t.value, templates, old(seen))
        && expanding && t.value == MakeStr(templates[active], c) && c in used && c !in pending
      ensures old(position) == |nonRecursive| && t.Some? && old(pending) != {} ==>
        && active == old(active) && round == old(round)
        && c in old(pending) && pending == old(pending) - {c} && used == old(used) + {c}
      ensures old(position) == |nonRecursive| && t.Some? && old(pending) == {} ==>
        && active == old(NextActive())
        && AllFillings(round, old(seen), |templates[active]| - 1)
        && used == {c} && pending == round - {c}
        && (old(expanding) ==> old(round) <= old(used))
    {
      c := [];
      if position < |nonRecursive| {
        t := YieldNonRecursive();
      } else if templates == [] || nonRecursive == [] {
        t := None;
      } else {
        var term;
        term, c := YieldRecursive();
        t := Some(term);
      }
    }

    /** The first loop of the generator: the next non-recursive term. */
    method YieldNonRecursive() returns (t: Option<string>)
      requires Valid() && position < |nonRecursive|
      modifies this
      ensures Valid()
      ensures t == Some(nonRecursive[old(position)]) && seen == old(seen)
      ensures yielded == old(yielded) + [t.value]
    {
      t := Some(nonRecursive[position]);
      yielded := yielded + [nonRecursive[position]];
      position := position + 1;
      assert yielded == nonRecursive[..position];
      if position == |nonRecursive| {
        assert nonRecursive[..position] == nonRecursive;
      }
    }

    /** The `while True` loop: the next slot filling of the active template, moving to the next template when it is used up. */
    method YieldRecursive() returns (term: string, ghost c: seq<string>)
      requires Valid() && position == |nonRecursive| && templates != [] && nonRecursive != []
      modifies this
      ensures Valid()
      ensures position == old(position)
      ensures yielded == old(yielded) + [term]
      ensures seen == old(seen) + {term} && FromTemplate(term, templates, old(seen))
      ensures expanding && term == MakeStr(templates[active], c) && c in used && c !in pending
      ensures old(pending) != {} ==>
        && active == old(active) && round == old(round)
        && c in old(pending) && pending == old(pending) - {c} && used == old(used) + {c}
      ensures old(pending) == {} ==>
        && active == old(NextActive())
        && AllFillings(round, old(seen), |templates[active]| - 1)
        && used == {c} && pending == round - {c}
        && (old(expanding) ==> old(round) <= old(used))
    {
      if pending == {} {
        NextTemplate();
      }
      term, c := TakeFilling();
    }

    /** The `for combination in product(...)` loop: yields the next filling of the active template. */
    method TakeFilling() returns (term: string, ghost c: seq<string>)
      requires Valid() && position == |nonRecursive| && pending != {}
      modifies this
      ensures Valid()
      ensures position == old(position) && active == old(active) && expanding && round == old(round)
      ensures c in old(pending) && pending == old(pending) - {c} && used == old(used) + {c}
      ensures term == MakeStr(templates[active], c)
      ensures yielded == old(yielded) + [term] && seen == old(seen) + {term}
      ensures FromTemplate(term, templates, old(seen))
    {
      var filling :| filling in pending;
      c := filling;
      term := MakeStr(templates[active], filling);
      assert FillsFrom(filling, seen, |templates[active]| - 1);
      pending, used := pending - {filling}, used + {filling};
      seen, yielded := seen + {term}, yielded + [term];
      assert yielded[..position] == old(yielded)[..position];
    }

    /**
     * The `for term in recursive_terms` loop moves on to the next template,
     * back to the first after the last, and takes a snapshot of `seen`. The
     * template it leaves has had every filling of its snapshot yielded.
     */
    method NextTemplate()
      requires Valid() && position == |nonRecursive| && templates != [] && nonRecursive != [] && pending == {}
      modifies this
      ensures Valid() && expanding && pending != {}
      ensures position == old(position) && seen == old(seen) && yielded == old(yielded)
      ensures active == old(NextActive())
      ensures AllFillings(round, seen, |templates[active]| - 1) && pending == round && used == {}
      ensures old(expanding) ==> old(round) <= old(used)
    {
      var next := NextActive();
      var fillings := Fillings(seen, |templates[next]| - 1);
      active, expanding, pending := next, true, fillings;
      round, used := fillings, {};
    }

    /** `product(seen_terms, repeat=k)`: all fillings of the active template, taken from a snapshot of `seen`. */
    method Fillings(pool: set<string>, k: nat) returns (r: set<seq<string>>)
      requires Valid() && position == |nonRecursive| && nonRecursive != [] && pool == seen
      ensures AllFillings(r, pool, k) && r != {}
    {
      assert nonRecursive[0] in pool;
      CombosNonEmpty(pool, k);
      forall c ensures c in Combos(pool, k) <==> FillsFrom(c, pool, k) {
        CombosMembership(pool, k, c);
      }
      r := Combos(pool, k);
    }
  }
}
