/**
 * The predicate ordering key (length, letter pattern, digit pattern) and the
 * descending order in which predicate lists are handed to the learner.
 * The source defines the key twice, with identical bodies; both copies are
 * modelled by `PredicateSortKey`.
 */
module SortKeys {
  import opened Text
  import opened Sorting

  datatype SortKey = SortKey(length: nat, letters: string, numbers: string)

  /** A letter stays, any other character reads as 'z'. */
  function LetterOf(c: char): char { if IsAlpha(c) then c else 'z' }

  /** A digit stays, any other character reads as '9'. */
  function DigitOf(c: char): char { if IsDigit(c) then c else '9' }

  function PredicateSortKey(s: string): (k: SortKey)
    ensures k.length == |s| && |k.letters| == |s| && |k.numbers| == |s|
  {
    SortKey(|s|, seq(|s|, i requires 0 <= i < |s| => LetterOf(s[i])),
                 seq(|s|, i requires 0 <= i < |s| => DigitOf(s[i])))
  }

  /** Python's `<=` on the key tuples: by length, then letters, then digits. */
  predicate KeyLe(a: SortKey, b: SortKey) {
    || a.length < b.length
    || (a.length == b.length
        && (LexLt(a.letters, b.letters) || (a.letters == b.letters && LexLe(a.numbers, b.numbers))))
  }

  /** Two strings have the same key exactly when they agree position by position on letters and on digits. */
  lemma {:induction false} SameKeyIff(s: string, t: string)
    ensures PredicateSortKey(s) == PredicateSortKey(t) <==>
            (|s| == |t| && forall i :: 0 <= i < |s| ==> LetterOf(s[i]) == LetterOf(t[i]) && DigitOf(s[i]) == DigitOf(t[i]))
  {
    var ks, kt := PredicateSortKey(s), PredicateSortKey(t);
    if |s| == |t| && forall i :: 0 <= i < |s| ==> LetterOf(s[i]) == LetterOf(t[i]) && DigitOf(s[i]) == DigitOf(t[i]) {
      assert ks.letters == kt.letters;
      assert ks.numbers == kt.numbers;
    }
    if ks == kt {
      forall i | 0 <= i < |s| ensures LetterOf(s[i]) == LetterOf(t[i]) && DigitOf(s[i]) == DigitOf(t[i]) {
        assert ks.letters[i] == kt.letters[i];
        assert ks.numbers[i] == kt.numbers[i];
      }
    }
  }

  /** Equal keys imply equal length, the same letters where `s` has a letter other than 'z', and the same digits where it has a digit other than '9'. */
  lemma EqualKeys(s: string, t: string)
    requires PredicateSortKey(s) == PredicateSortKey(t)
    ensures |s| == |t|
    ensures forall i :: 0 <= i < |s| && IsAlpha(s[i]) && s[i] != 'z' ==> t[i] == s[i]
    ensures forall i :: 0 <= i < |s| && IsDigit(s[i]) && s[i] != '9' ==> t[i] == s[i]
  {
    SameKeyIff(s, t);
  }

  /** Different predicates can tie: the key cannot tell `<` from `>`. */
  lemma KeysTie()
    ensures PredicateSortKey("x<y") == PredicateSortKey("x>y")
  {
    SameKeyIff("x<y", "x>y");
  }

  /** A shorter string always has a strictly smaller key. */
  lemma ShorterSortsFirst(s: string, t: string)
    requires |s| < |t|
    ensures KeyLe(PredicateSortKey(s), PredicateSortKey(t))
    ensures !KeyLe(PredicateSortKey(t), PredicateSortKey(s))
  {
  }

  lemma KeyLeTotal(a: SortKey, b: SortKey)
    ensures KeyLe(a, b) || KeyLe(b, a)
  {
    LexLeTotal(a.letters, b.letters);
    LexLeTotal(a.numbers, b.numbers);
  }

  lemma KeyLeTransitive(a: SortKey, b: SortKey, c: SortKey)
    requires KeyLe(a, b) && KeyLe(b, c)
    ensures KeyLe(a, c)
  {
    if a.length == b.length == c.length {
      if LexLt(a.letters, b.letters) && LexLt(b.letters, c.letters) {
        LexLeTransitive(a.letters, b.letters, c.letters);
        if a.letters == c.letters {
          LexLeAntisymmetric(a.letters, b.letters);
        }
      } else if a.letters == b.letters && b.letters == c.letters {
        LexLeTransitive(a.numbers, b.numbers, c.numbers);
      }
    }
  }

  /** The order of `sorted(..., key=predicate_sort_key, reverse=True)`: a larger key comes first. */
  function Descending(): (string, string) -> bool {
    (a: string, b: string) => KeyLe(PredicateSortKey(b), PredicateSortKey(a))
  }

  lemma DescendingIsTotalPreorder()
    ensures TotalPreorder(Descending())
  {
    forall a: string, b: string ensures Descending()(a, b) || Descending()(b, a) {
      KeyLeTotal(PredicateSortKey(a), PredicateSortKey(b));
    }
    forall a: string, b: string, c: string | Descending()(a, b) && Descending()(b, c)
      ensures Descending()(a, c)
    {
      KeyLeTransitive(PredicateSortKey(c), PredicateSortKey(b), PredicateSortKey(a));
    }
  }

  /** Python's ascending `sort()` on strings. */
  function Ascending(): (string, string) -> bool {
    (a: string, b: string) => LexLe(a, b)
  }

  lemma AscendingIsTotalPreorder()
    ensures TotalPreorder(Ascending())
  {
    forall a: string, b: string ensures Ascending()(a, b) || Ascending()(b, a) {
      LexLeTotal(a, b);
    }
    forall a: string, b: string, c: string | Ascending()(a, b) && Ascending()(b, c)
      ensures Ascending()(a, c)
    {
      LexLeTransitive(a, b, c);
    }
  }
}
