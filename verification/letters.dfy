/**
 * Letters of a word: ASCII lower-casing (Python's str.lower() restricted to
 * ASCII) and sorting of a list of characters (Python's sorted(), which orders
 * characters by code point).
 */
module Letters {

  /** Python's lower() on one ASCII character: A-Z become a-z, the rest stay. */
  function LowerChar(c: char): (r: char)
    ensures !('A' <= r <= 'Z')
  {
    if 'A' <= c <= 'Z' then (c as int + 32) as char else c
  }

  /** A string with no upper-case ASCII letter. */
  predicate IsLowerWord(s: string)
  {
    forall i :: 0 <= i < |s| ==> !('A' <= s[i] <= 'Z')
  }

  /** Python's str.lower(), character by character. */
  function Lower(s: string): (r: string)
    ensures |r| == |s|
    ensures IsLowerWord(r)
  {
    seq(|s|, i requires 0 <= i < |s| => LowerChar(s[i]))
  }

  /** word_to_letters: the word lower-cased and split into its characters. */
  function WordToLetters(word: string): (letters: seq<char>)
    ensures |letters| == |word|
    ensures forall i :: 0 <= i < |word| ==> letters[i] == LowerChar(word[i])
    ensures IsLowerWord(letters)
    ensures multiset(letters) == multiset(Lower(word))
  {
    Lower(word)
  }

  /** Lower-casing a lower-case word changes nothing. */
  lemma LowerOfLowerWord(s: string)
    requires IsLowerWord(s)
    ensures Lower(s) == s
  {
  }

  /** Characters in non-decreasing code-point order. */
  predicate Sorted(s: seq<char>)
  {
    forall i, j :: 0 <= i < j < |s| ==> s[i] <= s[j]
  }

  /** Puts x into a sorted list before the first element not below it. */
  function Insert(x: char, s: seq<char>): (r: seq<char>)
    requires Sorted(s)
    ensures Sorted(r)
    ensures |r| == |s| + 1
    ensures r[0] == x || (|s| > 0 && r[0] == s[0])
  {
    if s == [] then [x]
    else if x <= s[0] then [x] + s
    else [s[0]] + Insert(x, s[1..])
  }

  /** Python's sorted() on a list of characters (an insertion sort). */
  function Sort(s: seq<char>): (r: seq<char>)
    ensures Sorted(r)
    ensures |r| == |s|
  {
    if s == [] then [] else Insert(s[0], Sort(s[1..]))
  }

  /** Inserting adds exactly the one letter. */
  lemma {:induction false} InsertLetters(x: char, s: seq<char>)
    requires Sorted(s)
    ensures multiset(Insert(x, s)) == multiset(s) + multiset{x}
  {
    if s != [] && x > s[0] {
      assert s == [s[0]] + s[1..];
      InsertLetters(x, s[1..]);
    }
  }

  /** Sorting keeps exactly the letters: the result is a permutation. */
  lemma {:induction false} SortLetters(s: seq<char>)
    ensures multiset(Sort(s)) == multiset(s)
  {
    if s != [] {
      assert s == [s[0]] + s[1..];
      SortLetters(s[1..]);
      InsertLetters(s[0], Sort(s[1..]));
    }
  }

  /** The head of a sorted list is its least letter. */
  lemma SortedHeadIsLeast(s: seq<char>, x: char)
    requires Sorted(s) && x in multiset(s)
    ensures s[0] <= x
  {
    assert x in s;
    var k :| 0 <= k < |s| && s[k] == x;
  }

  /** A non-empty list is its head followed by its tail. */
  lemma SplitHead(s: seq<char>)
    requires |s| > 0
    ensures s[0] in multiset(s)
    ensures multiset(s[1..]) == multiset(s) - multiset{s[0]}
  {
    assert s == [s[0]] + s[1..];
  }

  /** Two sorted lists with the same letters have the same head, and their tails agree likewise. */
  lemma SortedHeads(a: seq<char>, b: seq<char>)
    requires Sorted(a) && Sorted(b)
    requires multiset(a) == multiset(b)
    requires |a| > 0
    ensures |b| > 0 && a[0] == b[0]
    ensures Sorted(a[1..]) && Sorted(b[1..])
    ensures multiset(a[1..]) == multiset(b[1..])
  {
    assert |a| == |multiset(a)| == |multiset(b)| == |b|;
    SplitHead(a);
    SplitHead(b);
    SortedHeadIsLeast(b, a[0]);
    SortedHeadIsLeast(a, b[0]);
  }

  /** Two sorted lists with the same letters are the same list. */
  lemma {:induction false} SortedUnique(a: seq<char>, b: seq<char>)
    requires Sorted(a) && Sorted(b)
    requires multiset(a) == multiset(b)
    ensures a == b
  {
    if a == [] {
      assert |b| == |multiset(b)| == 0;
    } else {
      SortedHeads(a, b);
      SortedUnique(a[1..], b[1..]);
      assert a == [a[0]] + a[1..];
      assert b == [b[0]] + b[1..];
    }
  }

  /** Sorting depends only on the letters, not their order. */
  lemma SortIsCanonical(a: seq<char>, b: seq<char>)
    ensures Sort(a) == Sort(b) <==> multiset(a) == multiset(b)
  {
    SortLetters(a);
    SortLetters(b);
    if multiset(a) == multiset(b) {
      SortedUnique(Sort(a), Sort(b));
    }
  }

  /** A sorted list is its own sorted form. */
  lemma SortOfSorted(s: seq<char>)
    requires Sorted(s)
    ensures Sort(s) == s
  {
    SortLetters(s);
    SortedUnique(Sort(s), s);
  }
}
