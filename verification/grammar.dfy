/**
 * The grammar of terms and conditions, and the predicate builder
 * (`Grammar` in components/grammar.py). A template marks a term slot with
 * 'T' and a predicate slot with 'C'.
 */
module Grammar {
  import opened Wrappers
  import opened Text
  import opened Sorting
  import opened SortKeys

  datatype Grammar = Grammar(terms: seq<string>, conditions: seq<string>)

  /** The elements of `xs` that satisfy `p`, in their original order (a list comprehension with a filter). */
  function Filter(xs: seq<string>, p: string -> bool): (r: seq<string>)
    ensures forall x :: x in r <==> x in xs && p(x)
    ensures |r| <= |xs|
  {
    if xs == [] then [] else (if p(xs[0]) then [xs[0]] else []) + Filter(xs[1..], p)
  }

  /** Filtering keeps order: filtering an extended list extends the filtered list. */
  lemma {:induction false} FilterAppend(xs: seq<string>, x: string, p: string -> bool)
    ensures Filter(xs + [x], p) == Filter(xs, p) + (if p(x) then [x] else [])
  {
    if xs != [] {
      assert (xs + [x])[1..] == xs[1..] + [x];
      FilterAppend(xs[1..], x, p);
    }
  }

  /** `identifiers(as_list=True)`: the identifier-like terms, sorted. */
  function Identifiers(g: Grammar): (ids: seq<string>)
    ensures forall s :: s in ids <==> s in g.terms && IsIdentifier(s)
    ensures multiset(ids) == multiset(Filter(g.terms, IsIdentifier))
    ensures SortedBy(ids, Ascending())
  {
    AscendingIsTotalPreorder();
    var filtered := Filter(g.terms, IsIdentifier);
    SortBySorted(filtered, Ascending());
    var sorted := SortBy(filtered, Ascending());
    assert forall s :: s in sorted <==> s in multiset(filtered);
    sorted
  }

  /**
   * `identifiers()`: the sorted identifiers joined with ", ". No identifier
   * holds a comma, so cutting the text at each ',' gives the first
   * identifier, then every other one behind a space.
   */
  function IdentifiersText(g: Grammar): (r: string)
    ensures Identifiers(g) == [] ==> r == ""
    ensures |Identifiers(g)| >= 1 ==> Split(r, ',') == [Identifiers(g)[0]] + SpacedRest(Identifiers(g))
  {
    var ids := Identifiers(g);
    if ids == [] then Join(ids, ", ")
    else
      IdentifiersHaveNoComma(g);
      SplitCommaJoin(ids);
      Join(ids, ", ")
  }

  /** Every part after the first, with the space that `", "` leaves in front of it. */
  function SpacedRest(parts: seq<string>): (r: seq<string>)
    requires |parts| >= 1
    ensures |r| == |parts| - 1 && forall i :: 0 <= i < |r| ==> r[i] == " " + parts[i + 1]
  {
    if |parts| == 1 then [] else [" " + parts[1]] + SpacedRest(parts[1..])
  }

  lemma IdentifiersHaveNoComma(g: Grammar)
    ensures forall i :: 0 <= i < |Identifiers(g)| ==> ',' !in Identifiers(g)[i]
  {
    var ids := Identifiers(g);
    forall i | 0 <= i < |ids| ensures ',' !in ids[i] {
      assert ids[i] in g.terms;
      IdentifierHasNoComma(ids[i]);
    }
  }

  lemma IdentifierHasNoComma(s: string)
    requires IsIdentifier(s)
    ensures ',' !in s
  {
  }

  lemma {:induction false} SplitCommaJoin(parts: seq<string>)
    requires |parts| >= 1
    requires forall i :: 0 <= i < |parts| ==> ',' !in parts[i]
    ensures Split(Join(parts, ", "), ',') == [parts[0]] + SpacedRest(parts)
  {
    if |parts| == 1 {
      SplitNoSeparator(parts[0], ',');
    } else {
      var rest := parts[1..];
      SplitCommaJoin(rest);
      var tail := Join(rest, ", ");
      assert Join(parts, ", ") == parts[0] + [','] + (" " + tail);
      SplitPrefix(parts[0], " " + tail, ',');
      SplitAfterSpace(tail);
    }
  }

  /** A leading space joins the first piece. */
  lemma SplitAfterSpace(s: string)
    ensures Split(" " + s, ',') == [" " + Split(s, ',')[0]] + Split(s, ',')[1..]
  {
    assert (" " + s)[1..] == s;
  }

  /** `non_recursive_terms()`: the terms made of digits or shaped like identifiers, in grammar order. */
  function NonRecursiveTerms(g: Grammar): (r: seq<string>)
    ensures forall t :: t in r <==> t in g.terms && (IsDigits(t) || IsIdentifier(t))
  {
    Filter(g.terms, t => IsDigits(t) || IsIdentifier(t))
  }

  /** The recursive term templates (terms containing a 'T' slot), split at their slots. */
  function RecursiveTemplates(g: Grammar): (r: seq<seq<string>>)
    ensures forall i :: 0 <= i < |r| ==> |r[i]| >= 2
  {
    SplitTemplates(Filter(g.terms, t => 'T' in t))
  }

  function SplitTemplates(tmpls: seq<string>): (r: seq<seq<string>>)
    requires forall t :: t in tmpls ==> 'T' in t
    ensures |r| == |tmpls|
    ensures forall i :: 0 <= i < |r| ==> r[i] == Split(tmpls[i], 'T') && |r[i]| >= 2
  {
    if tmpls == [] then []
    else
      SplitAtLeastTwo(tmpls[0], 'T');
      [Split(tmpls[0], 'T')] + SplitTemplates(tmpls[1..])
  }

  lemma {:induction false} SplitAtLeastTwo(s: string, sep: char)
    requires sep in s
    ensures |Split(s, sep)| >= 2
  {
    CountPositive(s, sep);
  }

  lemma {:induction false} CountPositive(s: string, c: char)
    requires c in s
    ensures Count(s, c) >= 1
  {
    if s[0] != c {
      CountPositive(s[1..], c);
    }
  }

  /**
   * `_make_str_from_parts_and_combination`: the parts interleaved with the
   * combination. Like `zip(parts, combination + ("",))` it starts with the
   * first part and stops at the shorter side: parts beyond one more than the
   * combination, and fillings beyond as many as the parts, are dropped.
   */
  function MakeStr(parts: seq<string>, combination: seq<string>): (r: string)
    ensures parts == [] ==> r == ""
    ensures parts != [] ==> parts[0] <= r
    ensures |combination| + 1 < |parts| ==> r == MakeStr(parts[..|combination| + 1], combination)
    ensures |parts| < |combination| ==> r == MakeStr(parts, combination[..|parts|])
  {
    if parts == [] then ""
    else if combination == [] then parts[0]
    else
      assert |combination| + 1 < |parts| ==> parts[..|combination| + 1][1..] == parts[1..][..|combination| - 1 + 1];
      assert |parts| < |combination| ==> combination[..|parts|][1..] == combination[1..][..|parts| - 1];
      parts[0] + combination[0] + MakeStr(parts[1..], combination[1..])
  }

  /** Substitution read from the right: the last slot and the last part come last. */
  lemma {:induction false} MakeStrSnoc(parts: seq<string>, combination: seq<string>, c: string, p: string)
    requires |combination| + 1 == |parts|
    ensures MakeStr(parts + [p], combination + [c]) == MakeStr(parts, combination) + c + p
  {
    if combination == [] {
      assert (parts + [p])[1..] == [p];
    } else {
      assert (parts + [p])[1..] == parts[1..] + [p];
      assert (combination + [c])[1..] == combination[1..] + [c];
      MakeStrSnoc(parts[1..], combination[1..], c, p);
    }
  }

  lemma MakeStrPrefix(x: string, parts: seq<string>, combination: seq<string>)
    requires |parts| >= 1
    ensures MakeStr([x + parts[0]] + parts[1..], combination) == x + MakeStr(parts, combination)
  {
    assert ([x + parts[0]] + parts[1..])[1..] == parts[1..];
  }

  function Fill(k: nat, s: string): (r: seq<string>)
    ensures |r| == k && forall i :: 0 <= i < k ==> r[i] == s
  {
    seq(k, _ => s)
  }

  /** Putting the slot marker back into every slot of a split template gives the template back. */
  lemma {:induction false} SubstituteMarkerBack(tmpl: string, marker: char)
    ensures MakeStr(Split(tmpl, marker), Fill(|Split(tmpl, marker)| - 1, [marker])) == tmpl
  {
    if tmpl != [] {
      var rest := Split(tmpl[1..], marker);
      SubstituteMarkerBack(tmpl[1..], marker);
      var f := Fill(|rest| - 1, [marker]);
      if tmpl[0] == marker {
        assert Split(tmpl, marker) == [""] + rest;
        assert Fill(|rest|, [marker]) == [[marker]] + f;
        assert ([""] + rest)[1..] == rest;
        assert tmpl == [marker] + tmpl[1..];
      } else {
        assert Split(tmpl, marker) == [[tmpl[0]] + rest[0]] + rest[1..];
        MakeStrPrefix([tmpl[0]], rest, f);
        assert tmpl == [tmpl[0]] + tmpl[1..];
      }
    }
  }

  /** `product(items, repeat=k)`, as a set: every length-k sequence over `items`. */
  function Combos(items: set<string>, k: nat): (r: set<seq<string>>)
    ensures forall c :: c in r ==> |c| == k
  {
    if k == 0 then {[]} else set c, x | c in Combos(items, k - 1) && x in items :: c + [x]
  }

  lemma {:induction false} CombosMembership(items: set<string>, k: nat, c: seq<string>)
    ensures c in Combos(items, k) <==> |c| == k && forall i :: 0 <= i < k ==> c[i] in items
  {
    if c in Combos(items, k) {
      CombosSound(items, k, c);
    }
    if |c| == k && forall i :: 0 <= i < k ==> c[i] in items {
      CombosComplete(items, k, c);
    }
  }

  /** Every combination takes each entry from the pool. */
  lemma {:induction false} CombosSound(items: set<string>, k: nat, c: seq<string>)
    requires c in Combos(items, k)
    ensures |c| == k && forall i :: 0 <= i < k ==> c[i] in items
  {
    if k > 0 {
      var c', x :| c' in Combos(items, k - 1) && x in items && c == c' + [x];
      CombosSound(items, k - 1, c');
    }
  }

  /** Every length-k sequence over the pool is a combination. */
  lemma {:induction false} CombosComplete(items: set<string>, k: nat, c: seq<string>)
    requires |c| == k && forall i :: 0 <= i < k ==> c[i] in items
    ensures c in Combos(items, k)
  {
    if k > 0 {
      var front := c[..k - 1];
      CombosComplete(items, k - 1, front);
      assert c == front + [c[k - 1]];
    }
  }

  /** Over a non-empty pool there is a combination of every length. */
  lemma {:induction false} CombosNonEmpty(items: set<string>, k: nat)
    requires items != {}
    ensures Combos(items, k) != {}
  {
    if k > 0 {
      CombosNonEmpty(items, k - 1);
      var c :| c in Combos(items, k - 1);
      var x :| x in items;
      assert c + [x] in Combos(items, k);
    }
  }

  /** A larger pool offers every combination a smaller one does. */
  lemma {:induction false} CombosGrow(small: set<string>, large: set<string>, k: nat)
    requires small <= large
    ensures Combos(small, k) <= Combos(large, k)
  {
    forall c | c in Combos(small, k) ensures c in Combos(large, k) {
      CombosMembership(small, k, c);
      CombosMembership(large, k, c);
    }
  }

  /** Two neighbouring slots would receive the same term (a self-comparison). */
  predicate AdjacentRepeat(c: seq<string>) {
    exists i :: 0 <= i < |c| - 1 && c[i] == c[i + 1]
  }

  /** The predicates of one non-recursive condition: every slot filling without a self-comparison. */
  function NonRecursivePreds(condition: string, terms: set<string>): set<string> {
    var parts := Split(condition, 'T');
    set c | c in Combos(terms, |parts| - 1) && !AdjacentRepeat(c) :: MakeStr(parts, c)
  }

  /** `_prune_parts`: the two predicates, cut at spaces, have the same operator (token 1) and swapped operands (tokens 0 and 2). */
  function PruneParts(part1: string, part2: string): (r: Result<bool, Error>)
    ensures var t1, t2 := Split(part1, ' '), Split(part2, ' ');
            r.Failure? <==> |t1| < 2 || |t2| < 3 || (t1[0] == t2[2] && |t1| < 3)
    ensures var t1, t2 := Split(part1, ' '), Split(part2, ' ');
            r == Success(true) <==> |t1| >= 3 && |t2| >= 3 && t1[1] == t2[1] && t1[0] == t2[2] && t1[2] == t2[0]
    ensures r.Failure? ==> r.error == IndexError
  {
    var t1, t2 := Split(part1, ' '), Split(part2, ' ');
    if |t1| < 2 || |t2| < 2 then Failure(IndexError)
    else
      var sameOperator := t1[1] == t2[1];
      if |t2| < 3 then Failure(IndexError)
      else if t1[0] != t2[2] then Success(false)
      else if |t1| < 3 then Failure(IndexError)
      else Success(sameOperator && t1[2] == t2[0])
  }

  /** `a` contains "not" and removing its first "not" leaves exactly `b`. */
  predicate Opposite(a: string, b: string) {
    Contains(a, "not") && ReplaceFirst(a, "not", "") == b
  }

  /** The four (a, b) pairs the source's nested comprehension visits. */
  predicate OppositePreds(c0: string, c1: string) {
    Opposite(c0, c1) || Opposite(c0, c0) || Opposite(c1, c1) || Opposite(c1, c0)
  }

  /** `_prune_predicates` for a two-slot connective whose middle text is `connective`. */
  function PrunePredicates(connective: string, c0: string, c1: string): (r: Result<bool, Error>)
    ensures r.Failure? <==> PruneParts(c0, c1).Failure?
    ensures r.Success? ==>
      (r.value <==>
        || (Contains(connective, "and") && (c0 == c1 || Opposite(c0, c1) || Opposite(c1, c0)))
        || (Contains(connective, "or") && (Opposite(c0, c1) || Opposite(c1, c0)))
        || PruneParts(c0, c1) == Success(true))
  {
    NeverOppositeToItself(c0);
    NeverOppositeToItself(c1);
    var orIng := Contains(connective, "or");
    var andIng := Contains(connective, "and");
    var samePreds := c0 == c1;
    var oppositePreds := OppositePreds(c0, c1);
    match PruneParts(c0, c1)
    case Failure(e) => Failure(e)
    case Success(sameOperatorAndFlipped) =>
      var sameAnd := samePreds && andIng;
      var oppositeAnd := oppositePreds && andIng;
      var sameOr := oppositePreds && orIng;
      var oppositeOr := oppositePreds && orIng;
      Success(sameAnd || oppositeAnd || sameOr || oppositeOr || sameOperatorAndFlipped)
  }

  /** Removing "not" shortens a string, so no string is its own opposite. */
  lemma NeverOppositeToItself(a: string)
    ensures !Opposite(a, a)
  {
  }

  /** An operand built by the "not C" template is never judged opposite to its base: removing "not" leaves the space. */
  lemma NotTemplateNeverOpposite(p: string)
    ensures !Opposite("not " + p, p)
  {
  }

  /** Identical operands under an "or" connective are kept: `same_or` repeats the opposite test. */
  lemma IdenticalOrOperandsKept(connective: string, p: string)
    requires Contains(connective, "or") && !Contains(connective, "and")
    requires PruneParts(p, p) == Success(false)
    ensures PrunePredicates(connective, p, p) == Success(false)
  {
    NeverOppositeToItself(p);
  }

  /** One recursive condition applied to a snapshot `preds` of the predicates built so far. */
  function RecursiveStep(condition: string, preds: set<string>, terms: set<string>): Result<set<string>, Error> {
    var parts := Split(condition, 'C');
    var combos := Combos(preds, |parts| - 1);
    if |parts| == 3 && exists c :: c in combos && PrunePredicates(parts[1], c[0], c[1]).Failure? then
      Failure(IndexError)
    else
      Success(preds + set c, tc |
        && c in combos
        && !(|parts| == 3 && PrunePredicates(parts[1], c[0], c[1]) == Success(true))
        && tc in Combos(terms, |Split(MakeStr(parts, c), 'T')| - 1)
        :: MakeStr(Split(MakeStr(parts, c), 'T'), tc))
  }

  /** The predicates of the non-recursive conditions among `conds`. */
  function NonRecursiveUpTo(conds: seq<string>, terms: set<string>): set<string> {
    if conds == [] then {}
    else
      var last := conds[|conds| - 1];
      NonRecursiveUpTo(conds[..|conds| - 1], terms) + (if 'C' in last then {} else NonRecursivePreds(last, terms))
  }

  /** The recursive conditions among `conds`, applied in order, starting from `start`. */
  function RecursiveUpTo(conds: seq<string>, start: set<string>, terms: set<string>): Result<set<string>, Error> {
    if conds == [] then Success(start)
    else
      var last := conds[|conds| - 1];
      match RecursiveUpTo(conds[..|conds| - 1], start, terms)
      case Failure(e) => Failure(e)
      case Success(p) => if 'C' in last then RecursiveStep(last, p, terms) else Success(p)
  }

  /** The set of predicates `enumerate_predicates(terms)` builds before it sorts them. */
  function PredicateSet(g: Grammar, terms: set<string>): Result<set<string>, Error> {
    RecursiveUpTo(g.conditions, NonRecursiveUpTo(g.conditions, terms), terms)
  }

  /** Recursive conditions only add: every non-recursive predicate survives into the result. */
  lemma {:induction false} RecursiveUpToGrows(conds: seq<string>, start: set<string>, terms: set<string>)
    requires RecursiveUpTo(conds, start, terms).Success?
    ensures start <= RecursiveUpTo(conds, start, terms).value
  {
    if conds != [] {
      RecursiveUpToGrows(conds[..|conds| - 1], start, terms);
    }
  }

  /** Once a recursive condition raises, the error is the one the whole pass reports. */
  lemma {:induction false} FailureIsFinal(conds: seq<string>, k: nat, start: set<string>, terms: set<string>)
    requires k <= |conds|
    requires RecursiveUpTo(conds[..k], start, terms).Failure?
    ensures RecursiveUpTo(conds, start, terms) == RecursiveUpTo(conds[..k], start, terms)
  {
    if k < |conds| {
      assert conds[..|conds| - 1][..k] == conds[..k];
      FailureIsFinal(conds[..|conds| - 1], k, start, terms);
    } else {
      assert conds[..k] == conds;
    }
  }

  lemma {:induction false} FailurePersists(conds: seq<string>, k: nat, start: set<string>, terms: set<string>)
    requires k <= |conds|
    requires RecursiveUpTo(conds[..k], start, terms).Failure?
    ensures RecursiveUpTo(conds, start, terms).Failure?
  {
    if k < |conds| {
      assert conds[..|conds| - 1][..k] == conds[..k];
      FailurePersists(conds[..|conds| - 1], k, start, terms);
    } else {
      assert conds[..k] == conds;
    }
  }

  /** The first pass: the predicates of every non-recursive condition. */
  method NonRecursivePass(conds: seq<string>, terms: set<string>) returns (predicates: set<string>)
    ensures predicates == NonRecursiveUpTo(conds, terms)
  {
    predicates := {};
    for k := 0 to |conds|
      invariant predicates == NonRecursiveUpTo(conds[..k], terms)
    {
      assert conds[..k + 1][..k] == conds[..k];
      if 'C' !in conds[k] {
        predicates := predicates + NonRecursivePreds(conds[k], terms);
      }
    }
    assert conds[..|conds|] == conds;
  }

  /** The second pass: each recursive condition, in grammar order, over the predicates built so far. */
  method RecursivePass(conds: seq<string>, start: set<string>, terms: set<string>) returns (r: Result<set<string>, Error>)
    ensures r == RecursiveUpTo(conds, start, terms)
  {
    var predicates := start;
    for k := 0 to |conds|
      invariant RecursiveUpTo(conds[..k], start, terms) == Success(predicates)
    {
      assert conds[..k + 1][..k] == conds[..k];
      if 'C' in conds[k] {
        var step := RecursiveStep(conds[k], predicates, terms);
        assert RecursiveUpTo(conds[..k + 1], start, terms) == step;
        if step.Failure? {
          FailurePersists(conds, k + 1, start, terms);
          FailureIsFinal(conds, k + 1, start, terms);
          return step;
        }
        predicates := step.value;
      }
    }
    assert conds[..|conds|] == conds;
    r := Success(predicates);
  }

  /** The whole predicate set, as `enumerate_predicates` builds it. */
  method BuildPredicateSet(g: Grammar, terms: set<string>) returns (r: Result<set<string>, Error>)
    ensures r == PredicateSet(g, terms)
  {
    var start := NonRecursivePass(g.conditions, terms);
    r := RecursivePass(g.conditions, start, terms);
  }

  /** `list(s)`: the elements of a set, each once, in an arbitrary order. */
  method ListSet(s: set<string>) returns (listed: seq<string>)
    ensures forall p :: p in listed <==> p in s
    ensures forall i, j :: 0 <= i < j < |listed| ==> listed[i] != listed[j]
  {
    listed := [];
    var remaining := s;
    while remaining != {}
      invariant remaining <= s
      invariant forall p :: p in listed <==> p in s && p !in remaining
      invariant forall i, j :: 0 <= i < j < |listed| ==> listed[i] != listed[j]
      decreases remaining
    {
      var p :| p in remaining;
      listed := listed + [p];
      remaining := remaining - {p};
    }
  }

  /**
   * `enumerate_predicates(terms)`: the predicate set, de-duplicated and
   * sorted by descending key, so the simplest predicate is last.
   */
  method EnumeratePredicates(g: Grammar, terms: set<string>) returns (r: Result<seq<string>, Error>)
    ensures r.Failure? <==> PredicateSet(g, terms).Failure?
    ensures r.Failure? ==> r.error == IndexError
    ensures r.Success? ==> forall p :: p in r.value <==> p in PredicateSet(g, terms).value
    ensures r.Success? ==> forall i, j :: 0 <= i < j < |r.value| ==> r.value[i] != r.value[j]
    ensures r.Success? ==> SortedBy(r.value, Descending())
    ensures r.Success? ==> EndsWithMinimalKey(r.value)
  {
    var built := BuildPredicateSet(g, terms);
    if built.Failure? {
      PredicateSetErrors(g, terms);
      return Failure(built.error);
    }
    var listed := ListSet(built.value);
    var sorted := SortBy(listed, Descending());
    DescendingSort(listed, sorted);
    r := Success(sorted);
  }

  /** Sorting a duplicate-free list by descending key keeps its elements, each once, and ends with a minimal key. */
  lemma DescendingSort(listed: seq<string>, sorted: seq<string>)
    requires forall i, j :: 0 <= i < j < |listed| ==> listed[i] != listed[j]
    requires sorted == SortBy(listed, Descending())
    ensures forall p :: p in sorted <==> p in listed
    ensures forall i, j :: 0 <= i < j < |sorted| ==> sorted[i] != sorted[j]
    ensures SortedBy(sorted, Descending())
    ensures EndsWithMinimalKey(sorted)
  {
    DescendingIsTotalPreorder();
    SortBySorted(listed, Descending());
    PermutationKeepsDistinct(listed, sorted);
    assert forall p :: p in sorted <==> p in multiset(listed);
    LastIsMinimal(sorted);
  }

  /** The last element, popped first by the learner, has a key no larger than any other. */
  predicate EndsWithMinimalKey(xs: seq<string>) {
    xs != [] ==> forall i :: 0 <= i < |xs| ==> KeyLe(PredicateSortKey(xs[|xs| - 1]), PredicateSortKey(xs[i]))
  }

  /** The last element of a descending list has the smallest key. */
  lemma LastIsMinimal(sorted: seq<string>)
    requires SortedBy(sorted, Descending())
    ensures EndsWithMinimalKey(sorted)
  {
    if sorted == [] {
      return;
    }
    var last := sorted[|sorted| - 1];
    forall i | 0 <= i < |sorted| ensures KeyLe(PredicateSortKey(last), PredicateSortKey(sorted[i])) {
      if i == |sorted| - 1 {
        KeyLeTotal(PredicateSortKey(last), PredicateSortKey(last));
      } else {
        assert Descending()(sorted[i], last);
      }
    }
  }

  /** The only error the predicate builder raises is the IndexError of `_prune_parts`. */
  lemma PredicateSetErrors(g: Grammar, terms: set<string>)
    ensures PredicateSet(g, terms).Failure? ==> PredicateSet(g, terms).error == IndexError
  {
    RecursiveUpToErrors(g.conditions, NonRecursiveUpTo(g.conditions, terms), terms);
  }

  lemma {:induction false} RecursiveUpToErrors(conds: seq<string>, start: set<string>, terms: set<string>)
    ensures RecursiveUpTo(conds, start, terms).Failure? ==> RecursiveUpTo(conds, start, terms).error == IndexError
  {
    if conds != [] {
      RecursiveUpToErrors(conds[..|conds| - 1], start, terms);
    }
  }

  /**
   * No self-comparison: for a comparison template "T" + op + "T", the string
   * that compares a term with itself is not produced, provided some
   * character of the operator text occurs in no term and not in `t`.
   */
  lemma NoSelfComparison(op: string, terms: set<string>, t: string)
    requires 'T' !in op
    requires exists ch :: ch in op && ch !in t && forall u :: u in terms ==> ch !in u
    ensures t + op + t !in NonRecursivePreds("T" + op + "T", terms)
  {
    var ch :| ch in op && ch !in t && forall u :: u in terms ==> ch !in u;
    var parts := ComparisonParts(op);
    forall c | c in Combos(terms, 2) && MakeStr(parts, c) == t + op + t
      ensures AdjacentRepeat(c)
    {
      CombosMembership(terms, 2, c);
      MakeStrTwoSlots(op, c);
      OperandsOf(op, ch, c[0], c[1], t);
    }
  }

  /** A character of the operator that neither left operand has fixes where the left operand ends. */
  lemma OperandsOf(op: string, ch: char, a: string, b: string, t: string)
    requires ch in op && ch !in a && ch !in t
    requires a + op + b == t + op + t
    ensures a == t && b == t
  {
    var k := FirstIndexOf(op, ch);
    var s := a + op + b;
    assert s[|a| + k] == ch && s[|t| + k] == ch;
    forall i | 0 <= i < |a| + k ensures s[i] != ch {
      if i >= |a| {
        assert s[i] == op[i - |a|];
      } else {
        assert s[i] == a[i];
      }
    }
    forall i | 0 <= i < |t| + k ensures s[i] != ch {
      if i >= |t| {
        assert s[i] == (t + op + t)[i] == op[i - |t|];
      } else {
        assert s[i] == (t + op + t)[i] == t[i];
      }
    }
    assert |a| == |t|;
    assert a == s[..|a|] && t == (t + op + t)[..|t|];
    assert b == s[|a| + |op|..] && t == (t + op + t)[|t| + |op|..];
  }

  /** The first position of `ch` in `s`. */
  lemma FirstIndexOf(s: string, ch: char) returns (k: nat)
    requires ch in s
    ensures k < |s| && s[k] == ch && forall j :: 0 <= j < k ==> s[j] != ch
  {
    if s[0] == ch {
      k := 0;
    } else {
      assert s == [s[0]] + s[1..];
      var rest := FirstIndexOf(s[1..], ch);
      k := rest + 1;
    }
  }

  lemma ComparisonParts(op: string) returns (parts: seq<string>)
    requires 'T' !in op
    ensures parts == Split("T" + op + "T", 'T') == ["", op, ""]
  {
    SplitPrefix("", op + "T", 'T');
    assert "T" + op + "T" == "" + ['T'] + (op + "T");
    SplitPrefix(op, "", 'T');
    assert op + "T" == op + ['T'] + "";
    parts := Split("T" + op + "T", 'T');
  }

  lemma MakeStrTwoSlots(op: string, c: seq<string>)
    requires |c| == 2
    ensures MakeStr(["", op, ""], c) == c[0] + op + c[1]
  {
    var parts := ["", op, ""];
    assert parts[1..] == [op, ""] && c[1..] == [c[1]];
    assert MakeStr(parts, c) == parts[0] + c[0] + MakeStr([op, ""], [c[1]]);
    MakeStrLastSlot(op, c[1]);
    AppendAssoc(c[0], op, c[1]);
  }

  lemma MakeStrLastSlot(op: string, b: string)
    ensures MakeStr([op, ""], [b]) == op + b
  {
    assert [op, ""][1..] == [""] && [b][1..] == [];
    assert op + b + "" == op + b;
  }

  lemma AppendAssoc(a: string, b: string, d: string)
    ensures "" + a + (b + d) == a + b + d
  {
    assert "" + a == a;
  }
}
