/** Canonical key names and canonical key combinations.

    The handler lower-cases every key name it receives, and it identifies a key
    combination by its sorted list of names, so that the order in which keys
    are listed or pressed does not matter. This module gives the lower-casing
    (ASCII only), a total order on strings (lexicographic by character code,
    a proper prefix first), a sort on sequences of strings, and the fact that
    makes sorted lists canonical: two lists sort to the same list exactly
    when they hold the same names with the same multiplicities.
 */
module KeyCanon {

  // ---------------------------------------------------------------------------
  // Lower-casing
  // ---------------------------------------------------------------------------

  predicate IsUpper(c: char) {
    'A' <= c <= 'Z'
  }

  /** ASCII lower-casing of one character; every other character is kept. */
  function LowerChar(c: char): (r: char)
    ensures !IsUpper(r)
    ensures !IsUpper(c) ==> r == c
    ensures IsUpper(c) ==> 'a' <= r <= 'z' && r as int - c as int == 'a' as int - 'A' as int
  {
    if IsUpper(c) then (c as int - 'A' as int + 'a' as int) as char else c
  }

  /** Lower-casing of a key name, character by character. */
  function ToLower(s: string): (r: string)
    ensures |r| == |s|
    ensures forall i :: 0 <= i < |s| ==> r[i] == LowerChar(s[i])
    ensures forall i :: 0 <= i < |r| ==> !IsUpper(r[i])
  {
    if s == [] then [] else [LowerChar(s[0])] + ToLower(s[1..])
  }

  /** A name is lower-case when it has no upper-case character. */
  predicate IsLower(s: string) {
    forall i :: 0 <= i < |s| ==> !IsUpper(s[i])
  }

  /** Lower-cased names are fixed points: normalising a second time changes nothing. */
  lemma ToLowerIdempotent(s: string)
    ensures IsLower(ToLower(s))
    ensures ToLower(ToLower(s)) == ToLower(s)
  {
  }

  // ---------------------------------------------------------------------------
  // The order on strings
  // ---------------------------------------------------------------------------

  /** Lexicographic order by character code, a proper prefix before the longer string. */
  predicate StrLe(a: string, b: string)
    decreases |a|
  {
    if a == [] then true
    else if b == [] then false
    else if a[0] != b[0] then a[0] < b[0]
    else StrLe(a[1..], b[1..])
  }

  lemma {:induction false} StrLeReflexive(a: string)
    ensures StrLe(a, a)
    decreases |a|
  {
    if a != [] {
      StrLeReflexive(a[1..]);
    }
  }

  lemma {:induction false} StrLeTotal(a: string, b: string)
    ensures StrLe(a, b) || StrLe(b, a)
    decreases |a|
  {
    if a != [] && b != [] && a[0] == b[0] {
      StrLeTotal(a[1..], b[1..]);
    }
  }

  lemma {:induction false} StrLeAntisymmetric(a: string, b: string)
    requires StrLe(a, b) && StrLe(b, a)
    ensures a == b
    decreases |a|
  {
    if a != [] {
      StrLeAntisymmetric(a[1..], b[1..]);
      assert a == [a[0]] + a[1..] && b == [b[0]] + b[1..];
    }
  }

  lemma {:induction false} StrLeTransitive(a: string, b: string, c: string)
    requires StrLe(a, b) && StrLe(b, c)
    ensures StrLe(a, c)
    decreases |a|
  {
    if a != [] && a[0] == b[0] && b[0] == c[0] {
      StrLeTransitive(a[1..], b[1..], c[1..]);
    }
  }

  // ---------------------------------------------------------------------------
  // Sorting
  // ---------------------------------------------------------------------------

  predicate Sorted(s: seq<string>) {
    forall i, j :: 0 <= i < j < |s| ==> StrLe(s[i], s[j])
  }

  /** `x` is below every element of `s`. */
  predicate Below(x: string, s: seq<string>) {
    forall k :: 0 <= k < |s| ==> StrLe(x, s[k])
  }

  lemma PrependSorted(x: string, s: seq<string>)
    requires Sorted(s) && Below(x, s)
    ensures Sorted([x] + s)
  {
  }

  /** Being below every element depends only on the elements. */
  lemma BelowMultiset(x: string, a: seq<string>, b: seq<string>)
    requires Below(x, a) && multiset(b) <= multiset(a)
    ensures Below(x, b)
  {
    forall k | 0 <= k < |b| ensures StrLe(x, b[k]) {
      assert b[k] in multiset(b);
      var i :| 0 <= i < |a| && a[i] == b[k];
    }
  }

  /** Inserts `x` into the sorted list `s`, before the first element not below it. */
  function Insert(x: string, s: seq<string>): (r: seq<string>)
    requires Sorted(s)
    ensures Sorted(r)
    ensures multiset(r) == multiset(s) + multiset{x}
    decreases |s|
  {
    if s == [] then [x]
    else if StrLe(x, s[0]) then
      assert Below(x, s) by {
        forall k | 0 <= k < |s| ensures StrLe(x, s[k]) {
          if k > 0 { StrLeTransitive(x, s[0], s[k]); }
        }
      }
      PrependSorted(x, s);
      [x] + s
    else
      var rest := Insert(x, s[1..]);
      assert s == [s[0]] + s[1..];
      assert Below(s[0], s[1..] + [x]) by {
        StrLeTotal(x, s[0]);
        forall k | 0 <= k < |s[1..] + [x]| ensures StrLe(s[0], (s[1..] + [x])[k]) {
          if k < |s[1..]| { assert (s[1..] + [x])[k] == s[k + 1]; }
        }
      }
      assert multiset(rest) == multiset(s[1..] + [x]);
      BelowMultiset(s[0], s[1..] + [x], rest);
      PrependSorted(s[0], rest);
      [s[0]] + rest
  }

  /** The canonical form of a list of key names: its elements in increasing order. */
  function Sort(s: seq<string>): (r: seq<string>)
    ensures Sorted(r)
    ensures multiset(r) == multiset(s)
  {
    if s == [] then []
    else
      assert s == [s[0]] + s[1..];
      Insert(s[0], Sort(s[1..]))
  }

  /** The first element of a sorted list is below every element of it. */
  lemma SortedHeadIsLeast(a: seq<string>, x: string)
    requires Sorted(a) && x in a
    ensures StrLe(a[0], x)
  {
    var i :| 0 <= i < |a| && a[i] == x;
    if i == 0 { StrLeReflexive(x); }
  }

  lemma MultisetTail(a: seq<string>)
    requires a != []
    ensures multiset(a[1..]) == multiset(a) - multiset{a[0]}
  {
    assert a == [a[0]] + a[1..];
  }

  /** Two sorted lists holding the same names with the same multiplicities are equal. */
  lemma {:induction false} SortedUnique(a: seq<string>, b: seq<string>)
    requires Sorted(a) && Sorted(b)
    requires multiset(a) == multiset(b)
    ensures a == b
    decreases |a|
  {
    assert |a| == |multiset(a)| == |multiset(b)| == |b|;
    if a != [] {
      assert a[0] in multiset(b) && b[0] in multiset(a);
      SortedHeadIsLeast(b, a[0]);
      SortedHeadIsLeast(a, b[0]);
      StrLeAntisymmetric(a[0], b[0]);
      MultisetTail(a);
      MultisetTail(b);
      SortedUnique(a[1..], b[1..]);
      assert a == [a[0]] + a[1..] && b == [b[0]] + b[1..];
    }
  }

  /** Sorting is canonical: it identifies exactly the lists that are
      permutations of each other. */
  lemma SortCanonical(a: seq<string>, b: seq<string>)
    ensures Sort(a) == Sort(b) <==> multiset(a) == multiset(b)
  {
    if multiset(a) == multiset(b) {
      SortedUnique(Sort(a), Sort(b));
    }
  }

  // ---------------------------------------------------------------------------
  // Lists without repetitions
  // ---------------------------------------------------------------------------

  predicate NoDup(s: seq<string>) {
    forall i, j :: 0 <= i < j < |s| ==> s[i] != s[j]
  }

  function Elems(s: seq<string>): set<string> {
    set x | x in s
  }

  /** A list without repetitions has as many elements as the set it lists. */
  lemma {:induction false} NoDupCardinality(s: seq<string>)
    requires NoDup(s)
    ensures |Elems(s)| == |s|
  {
    if s != [] {
      assert NoDup(s[1..]) by {
        forall i, j | 0 <= i < j < |s[1..]| ensures s[1..][i] != s[1..][j] {
          assert s[1..][i] == s[i + 1] && s[1..][j] == s[j + 1];
        }
      }
      NoDupCardinality(s[1..]);
      assert Elems(s) == {s[0]} + Elems(s[1..]);
      assert s[0] !in Elems(s[1..]);
    }
  }

  /** Removes `x` from a list, keeping the order of the other elements
      (the deletion of an element from an insertion-ordered set). */
  function Remove(s: seq<string>, x: string): (r: seq<string>)
    ensures Elems(r) == Elems(s) - {x}
    ensures NoDup(s) ==> NoDup(r)
    ensures x !in s ==> r == s
    ensures |r| <= |s|
    decreases |s|
  {
    if s == [] then []
    else
      var rest := Remove(s[1..], x);
      assert Elems(s) == {s[0]} + Elems(s[1..]);
      if s[0] == x then rest
      else
        assert NoDup(s) ==> NoDup([s[0]] + rest) by {
          if NoDup(s) {
            assert NoDup(s[1..]) by {
              forall i, j | 0 <= i < j < |s[1..]| ensures s[1..][i] != s[1..][j] {
                assert s[1..][i] == s[i + 1] && s[1..][j] == s[j + 1];
              }
            }
            assert s[0] !in Elems(s[1..]);
            forall k | 0 <= k < |rest| ensures rest[k] != s[0] {
              assert rest[k] in Elems(rest);
            }
          }
        }
        assert Elems([s[0]] + rest) == {s[0]} + Elems(rest);
        [s[0]] + rest
  }

  /** Removing a key from a list without repetitions cuts out its one
      occurrence and keeps the other elements in their order. */
  lemma {:induction false} RemoveKeepsOrder(s: seq<string>, x: string) returns (i: nat)
    requires NoDup(s) && x in s
    ensures i < |s| && s[i] == x
    ensures Remove(s, x) == s[..i] + s[i + 1..]
    decreases |s|
  {
    if s[0] == x {
      i := 0;
      forall k | 0 <= k < |s[1..]| ensures s[1..][k] != x {
        assert s[1..][k] == s[k + 1];
      }
      assert Remove(s, x) == Remove(s[1..], x) == s[1..];
    } else {
      assert NoDup(s[1..]) by {
        forall a, b | 0 <= a < b < |s[1..]| ensures s[1..][a] != s[1..][b] {
          assert s[1..][a] == s[a + 1] && s[1..][b] == s[b + 1];
        }
      }
      assert x in s[1..];
      var j := RemoveKeepsOrder(s[1..], x);
      i := j + 1;
      assert s[..i] == [s[0]] + s[1..][..j];
      assert s[i + 1..] == s[1..][j + 1..];
    }
  }

  /** A list has no repetitions exactly when no name occurs in it twice. */
  lemma {:induction false} NoDupMultiplicity(s: seq<string>)
    ensures NoDup(s) <==> forall x :: multiset(s)[x] <= 1
  {
    if s != [] {
      NoDupMultiplicity(s[1..]);
      assert s == [s[0]] + s[1..];
      assert multiset(s) == multiset{s[0]} + multiset(s[1..]);
      assert (forall x :: multiset(s)[x] <= 1) <==>
             s[0] !in s[1..] && (forall x :: multiset(s[1..])[x] <= 1) by {
        if forall x :: multiset(s)[x] <= 1 {
          assert multiset(s)[s[0]] <= 1;
          forall x ensures multiset(s[1..])[x] <= 1 {
            assert multiset(s)[x] <= 1;
          }
        }
      }
      assert NoDup(s) <==> s[0] !in s[1..] && NoDup(s[1..]) by {
        if NoDup(s) {
          forall i, j | 0 <= i < j < |s[1..]| ensures s[1..][i] != s[1..][j] {
            assert s[1..][i] == s[i + 1] && s[1..][j] == s[j + 1];
          }
          assert s[0] !in s[1..];
        }
        if s[0] !in s[1..] && NoDup(s[1..]) {
          forall i, j | 0 <= i < j < |s| ensures s[i] != s[j] {
            if i == 0 {
              assert s[j] == s[1..][j - 1];
            } else {
              assert s[i] == s[1..][i - 1] && s[j] == s[1..][j - 1];
            }
          }
        }
      }
    }
  }

  /** Against a list without repetitions, having the same multiset means
      having no repetitions and the same set of elements. */
  lemma SameMultisetAsSet(keys: seq<string>, held: seq<string>)
    requires NoDup(held)
    ensures multiset(keys) == multiset(held) <==> NoDup(keys) && Elems(keys) == Elems(held)
  {
    NoDupMultiplicity(keys);
    NoDupMultiplicity(held);
    if multiset(keys) == multiset(held) {
      assert forall x :: x in keys <==> x in multiset(held);
    }
    if NoDup(keys) && Elems(keys) == Elems(held) {
      forall x ensures multiset(keys)[x] == multiset(held)[x] {
        assert x in keys <==> x in held by {
          assert x in keys <==> x in Elems(keys);
        }
      }
    }
  }
}
