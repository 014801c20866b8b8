/** The Python string operations the synthesiser relies on, over `string` (ASCII semantics). */
module Text {
  import opened Wrappers

  predicate IsDigit(c: char) { '0' <= c <= '9' }

  predicate IsAlpha(c: char) { 'A' <= c <= 'Z' || 'a' <= c <= 'z' }

  /** `str.isdigit()`: non-empty and made of digits only. */
  predicate IsDigits(s: string) {
    |s| > 0 && forall i :: 0 <= i < |s| ==> IsDigit(s[i])
  }

  /** `str.isidentifier()`: a letter or `_`, then letters, digits or `_`. */
  predicate IsIdentifier(s: string) {
    && |s| > 0
    && (IsAlpha(s[0]) || s[0] == '_')
    && forall i :: 1 <= i < |s| ==> IsAlpha(s[i]) || IsDigit(s[i]) || s[i] == '_'
  }

  /** Number of occurrences of `c` in `s`. */
  function Count(s: string, c: char): nat {
    if s == [] then 0 else (if s[0] == c then 1 else 0) + Count(s[1..], c)
  }

  /** `s.split(sep)` for a one-character separator: the maximal pieces between separators. */
  function Split(s: string, sep: char): (parts: seq<string>)
    ensures |parts| == Count(s, sep) + 1
    ensures forall i :: 0 <= i < |parts| ==> sep !in parts[i]
  {
    if s == [] then [""]
    else
      var rest := Split(s[1..], sep);
      if s[0] == sep then [""] + rest
      else [[s[0]] + rest[0]] + rest[1..]
  }

  /** `sep.join(parts)`. */
  function Join(parts: seq<string>, sep: string): string {
    if |parts| == 0 then ""
    else if |parts| == 1 then parts[0]
    else parts[0] + sep + Join(parts[1..], sep)
  }

  /** Splitting a join at a separator character that no part contains gives the parts back. */
  lemma {:induction false} SplitJoin(parts: seq<string>, sep: char)
    requires |parts| >= 1
    requires forall i :: 0 <= i < |parts| ==> sep !in parts[i]
    ensures Split(Join(parts, [sep]), sep) == parts
  {
    if |parts| == 1 {
      SplitNoSeparator(parts[0], sep);
    } else {
      var rest := Join(parts[1..], [sep]);
      assert Join(parts, [sep]) == parts[0] + [sep] + rest;
      SplitJoin(parts[1..], sep);
      SplitPrefix(parts[0], rest, sep);
      assert [parts[0]] + parts[1..] == parts;
    }
  }

  lemma {:induction false} SplitNoSeparator(s: string, sep: char)
    requires sep !in s
    ensures Split(s, sep) == [s]
  {
    if s != [] {
      SplitNoSeparator(s[1..], sep);
      assert [s[0]] + s[1..] == s;
    }
  }

  /** Splitting `p + [sep] + rest`, where `p` holds no separator, puts `p` in front of the pieces of `rest`. */
  lemma {:induction false} SplitPrefix(p: string, rest: string, sep: char)
    requires sep !in p
    ensures Split(p + [sep] + rest, sep) == [p] + Split(rest, sep)
  {
    if p == [] {
      assert p + [sep] + rest == [sep] + rest;
      assert ([sep] + rest)[1..] == rest;
    } else {
      assert (p + [sep] + rest)[1..] == p[1..] + [sep] + rest;
      SplitPrefix(p[1..], rest, sep);
      assert [p[0]] + p[1..] == p;
    }
  }

  /** `sub` occurs in `s` starting at index `i`. */
  predicate OccursAt(s: string, sub: string, i: nat) {
    i + |sub| <= |s| && s[i..i + |sub|] == sub
  }

  /** `s.find(sub, start)`: the first index at or after `start` where `sub` occurs. */
  function FindFrom(s: string, sub: string, start: nat): (r: Option<nat>)
    decreases |s| - start
    ensures r.Some? ==> start <= r.value && OccursAt(s, sub, r.value)
    ensures r.Some? ==> forall j :: start <= j < r.value ==> !OccursAt(s, sub, j)
    ensures r.None? ==> forall j :: start <= j ==> !OccursAt(s, sub, j)
  {
    if start + |sub| > |s| then None
    else if OccursAt(s, sub, start) then Some(start)
    else FindFrom(s, sub, start + 1)
  }

  /** `sub in s`. */
  predicate Contains(s: string, sub: string) {
    FindFrom(s, sub, 0).Some?
  }

  /** `s.replace(sub, with, 1)`: the first occurrence of `sub`, if any, replaced by `with`. */
  function ReplaceFirst(s: string, sub: string, with: string): (r: string)
    ensures !Contains(s, sub) ==> r == s
    ensures Contains(s, sub) ==> |r| == |s| - |sub| + |with|
    ensures (forall j: nat :: !OccursAt(s, sub, j)) ==> r == s
    ensures (exists j: nat :: OccursAt(s, sub, j)) ==>
      exists i: nat ::
        && OccursAt(s, sub, i) && (forall j: nat :: j < i ==> !OccursAt(s, sub, j))
        && r == s[..i] + with + s[i + |sub|..]
  {
    match FindFrom(s, sub, 0)
    case None => s
    case Some(i) =>
      var r := s[..i] + with + s[i + |sub|..];
      assert OccursAt(s, sub, i) && (forall j: nat :: j < i ==> !OccursAt(s, sub, j)) && r == s[..i] + with + s[i + |sub|..];
      r
  }

  /** Python's `<=` on strings: lexicographic by character code, a proper prefix first. */
  predicate LexLe(a: string, b: string)
    decreases |a|
  {
    |a| == 0 || (|b| > 0 && (a[0] < b[0] || (a[0] == b[0] && LexLe(a[1..], b[1..]))))
  }

  /** Python's `<` on strings. */
  predicate LexLt(a: string, b: string) {
    LexLe(a, b) && a != b
  }

  lemma {:induction false} LexLeTotal(a: string, b: string)
    ensures LexLe(a, b) || LexLe(b, a)
  {
    if |a| > 0 && |b| > 0 && a[0] == b[0] {
      LexLeTotal(a[1..], b[1..]);
    }
  }

  lemma {:induction false} LexLeTransitive(a: string, b: string, c: string)
    requires LexLe(a, b) && LexLe(b, c)
    ensures LexLe(a, c)
  {
    if |a| > 0 && a[0] == b[0] && b[0] == c[0] {
      LexLeTransitive(a[1..], b[1..], c[1..]);
    }
  }

  lemma {:induction false} LexLeAntisymmetric(a: string, b: string)
    requires LexLe(a, b) && LexLe(b, a)
    ensures a == b
  {
    if |a| > 0 {
      LexLeAntisymmetric(a[1..], b[1..]);
      assert a == [a[0]] + a[1..] && b == [b[0]] + b[1..];
    }
  }
}
