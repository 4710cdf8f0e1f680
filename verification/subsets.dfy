/**
 * Subset enumeration: find_sub_versions removes one letter at a time, by
 * position, and collects every result (with repeats); find_sorted_sub_versions
 * sorts each of them and keeps the first occurrence of each sorted list.
 */
module Subsets {
  import opened Seqs
  import opened Letters

  /** The two letters that are words on their own. */
  predicate IsSingleLetterWord(c: char)
  {
    c == 'a' || c == 'i'
  }

  /**
   * A letter list that can stand for a word: at least two letters, or one of
   * the single-letter words.
   */
  predicate IsCandidate(s: seq<char>)
  {
    |s| >= 2 || (|s| == 1 && IsSingleLetterWord(s[0]))
  }

  /** letters[:i] + letters[i+1:]: the list with position i taken out. */
  function RemoveAt(s: seq<char>, i: nat): (r: seq<char>)
    requires i < |s|
    ensures |r| == |s| - 1
  {
    s[..i] + s[i + 1..]
  }

  /** Removing position i removes exactly one copy of the letter there. */
  lemma RemoveAtLetters(s: seq<char>, i: nat)
    requires i < |s|
    ensures multiset(RemoveAt(s, i)) == multiset(s) - multiset{s[i]}
  {
    assert s == s[..i] + [s[i]] + s[i + 1..];
  }

  /** What is left after a removal is part of the letters. */
  lemma RemoveAtShrinks(s: seq<char>, i: nat)
    requires i < |s|
    ensures multiset(RemoveAt(s, i)) <= multiset(s)
  {
    RemoveAtLetters(s, i);
  }

  /**
   * The result of find_sub_versions. A one-letter list yields itself when it
   * is a single-letter word and nothing otherwise; any other list yields
   * itself followed by the results for each one-letter removal, in order of
   * the removed position.
   */
  function SubVersions(letters: seq<char>): seq<seq<char>>
    decreases |letters|, 1
  {
    if |letters| == 1 then
      if IsSingleLetterWord(letters[0]) then [letters] else []
    else
      [letters] + Removals(letters, |letters|)
  }

  /** What the loop over i in range(n) adds: the results for removing 0 .. n-1. */
  function Removals(letters: seq<char>, n: nat): seq<seq<char>>
    requires n <= |letters|
    decreases |letters|, 0, n
  {
    if n == 0 then []
    else Removals(letters, n - 1) + SubVersions(RemoveAt(letters, n - 1))
  }

  /** find_sub_versions, recursive, with its accumulating loop. */
  method FindSubVersions(letters: seq<char>) returns (subVersions: seq<seq<char>>)
    ensures subVersions == SubVersions(letters)
    decreases |letters|
  {
    if |letters| == 1 {
      if letters[0] == 'a' || letters[0] == 'i' {
        return [letters];
      } else {
        return [];
      }
    }
    subVersions := [letters];
    for i := 0 to |letters|
      invariant subVersions == [letters] + Removals(letters, i)
    {
      var temp := letters[..i] + letters[i + 1..];
      var rest := FindSubVersions(temp);
      subVersions := subVersions + rest;
    }
  }

  /**
   * Soundness: every element is a sub-multiset of the input letters and, for
   * a non-empty input, at least two letters long or a single-letter word
   * (at every depth of the recursion).
   */
  lemma {:induction false} SubVersionsSound(letters: seq<char>, e: seq<char>)
    requires e in SubVersions(letters)
    ensures multiset(e) <= multiset(letters)
    ensures |letters| >= 1 ==> IsCandidate(e)
    decreases |letters|, 1
  {
    if |letters| != 1 && e != letters {
      RemovalsSound(letters, |letters|, e);
    }
  }

  /** Soundness of what the loop adds, for inputs of two or more letters. */
  lemma {:induction false} RemovalsSound(letters: seq<char>, n: nat, e: seq<char>)
    requires n <= |letters|
    requires e in Removals(letters, n)
    ensures multiset(e) <= multiset(letters)
    ensures |letters| >= 2 ==> IsCandidate(e)
    decreases |letters|, 0, n
  {
    var prev := Removals(letters, n - 1);
    var rest := RemoveAt(letters, n - 1);
    if e in prev {
      RemovalsSound(letters, n - 1, e);
    } else {
      assert e in SubVersions(rest);
      SubVersionsSound(rest, e);
      RemoveAtShrinks(letters, n - 1);
      SubMultisetTrans(multiset(e), multiset(rest), multiset(letters));
    }
  }

  /** A one-letter input yields itself exactly when it is 'a' or 'i'. */
  lemma SubVersionsOfOneLetter(c: char)
    ensures SubVersions([c]) == if IsSingleLetterWord(c) then [[c]] else []
  {
  }

  /** Any other input yields itself first. */
  lemma SubVersionsStartWithInput(letters: seq<char>)
    requires |letters| != 1
    ensures |SubVersions(letters)| >= 1 && SubVersions(letters)[0] == letters
  {
  }

  /** Every result of a removal is collected by the loop. */
  lemma {:induction false} RemovalsContain(letters: seq<char>, i: nat, n: nat, e: seq<char>)
    requires i < n <= |letters|
    requires e in SubVersions(RemoveAt(letters, i))
    ensures e in Removals(letters, n)
  {
    if i < n - 1 {
      RemovalsContain(letters, i, n - 1, e);
    }
  }

  /**
   * A proper sub-multiset of the letters survives the removal of some
   * position.
   */
  lemma RemovableLetter(letters: seq<char>, t: seq<char>) returns (i: nat)
    requires multiset(t) <= multiset(letters) && multiset(t) != multiset(letters)
    ensures i < |letters| && multiset(t) <= multiset(RemoveAt(letters, i))
  {
    var extra := multiset(letters) - multiset(t);
    assert multiset(letters) == multiset(t) + extra;
    var x :| x in extra;
    assert x in letters;
    i :| 0 <= i < |letters| && letters[i] == x;
    RemoveAtLetters(letters, i);
  }

  /** A candidate with all of the input's letters: the input itself, produced first. */
  lemma SubVersionsHaveWholeInput(letters: seq<char>, t: seq<char>)
    requires multiset(t) == multiset(letters)
    requires IsCandidate(t)
    ensures letters in SubVersions(letters)
  {
    assert |letters| == |multiset(letters)| == |t|;
    if |letters| == 1 {
      assert t == [t[0]];
      assert letters == [letters[0]];
      assert letters[0] in multiset(t);
    }
  }

  /**
   * Completeness: every candidate sub-multiset of the letters is produced,
   * in some arrangement.
   */
  lemma {:induction false} SubVersionsComplete(letters: seq<char>, t: seq<char>)
    requires multiset(t) <= multiset(letters)
    requires IsCandidate(t)
    ensures exists e :: e in SubVersions(letters) && multiset(e) == multiset(t)
    decreases |letters|
  {
    if multiset(t) == multiset(letters) {
      SubVersionsHaveWholeInput(letters, t);
    } else {
      var i := RemovableLetter(letters, t);
      var rest := RemoveAt(letters, i);
      SubMultisetSize(multiset(t), multiset(rest));
      SubVersionsComplete(rest, t);
      var e :| e in SubVersions(rest) && multiset(e) == multiset(t);
      RemovalsContain(letters, i, |letters|, e);
      assert e in SubVersions(letters);
    }
  }

  /** Each element sorted, in the order of the elements. */
  function SortAll(versions: seq<seq<char>>): seq<seq<char>>
  {
    seq(|versions|, k requires 0 <= k < |versions| => Sort(versions[k]))
  }

  /** The result of find_sorted_sub_versions. */
  function SortedSubVersions(word: string): (r: seq<seq<char>>)
    ensures NoDuplicates(r)
  {
    Dedup(SortAll(SubVersions(WordToLetters(word))))
  }

  /** Sorting one more element extends the sorted list by its sorted form. */
  lemma SortAllSnoc(versions: seq<seq<char>>, i: nat)
    requires i < |versions|
    ensures SortAll(versions[..i + 1]) == SortAll(versions[..i]) + [Sort(versions[i])]
  {
    assert forall k :: 0 <= k < i ==> versions[..i + 1][k] == versions[..i][k];
  }

  /** find_sorted_sub_versions: the sorting loop, then the de-duplicating loop. */
  method FindSortedSubVersions(word: string) returns (uniqueSubVersions: seq<seq<char>>)
    ensures uniqueSubVersions == SortedSubVersions(word)
  {
    var letters := WordToLetters(word);
    var subVersions := FindSubVersions(letters);
    var sortedSubVersions: seq<seq<char>> := [];
    for i := 0 to |subVersions|
      invariant sortedSubVersions == SortAll(subVersions[..i])
    {
      SortAllSnoc(subVersions, i);
      sortedSubVersions := sortedSubVersions + [Sort(subVersions[i])];
    }
    assert subVersions[..|subVersions|] == subVersions;
    uniqueSubVersions := [];
    for i := 0 to |sortedSubVersions|
      invariant uniqueSubVersions == Dedup(sortedSubVersions[..i])
    {
      DedupPrefix(sortedSubVersions, i);
      if sortedSubVersions[i] !in uniqueSubVersions {
        uniqueSubVersions := uniqueSubVersions + [sortedSubVersions[i]];
      }
    }
    assert sortedSubVersions[..|sortedSubVersions|] == sortedSubVersions;
  }

  /** The sorted sub-versions are sorted lists, each listed once. */
  lemma SortedSubVersionsDistinct(word: string)
    ensures forall s :: s in SortedSubVersions(word) ==> Sorted(s)
    ensures NoDuplicates(SortedSubVersions(word))
  {
    var sorted := SortAll(SubVersions(WordToLetters(word)));
    forall s | s in SortedSubVersions(word)
      ensures Sorted(s)
    {
      assert s in sorted;
    }
  }

  /** A one-letter list is its own sorted form. */
  lemma SortOfOneLetter(w: seq<char>)
    requires |w| == 1
    ensures Sort(w) == w
  {
    SortOfSorted(w);
  }

  /** Every sorted sub-version is a sorted candidate drawn from the word's letters. */
  lemma SortedSubVersionsSound(word: string, s: seq<char>)
    requires |word| >= 1
    requires s in SortedSubVersions(word)
    ensures Sorted(s) && IsCandidate(s) && multiset(s) <= multiset(WordToLetters(word))
  {
    var letters := WordToLetters(word);
    var subs := SubVersions(letters);
    var sorted := SortAll(subs);
    DedupMembership(sorted, s);
    var k :| 0 <= k < |sorted| && sorted[k] == s;
    assert subs[k] in subs;
    SubVersionsSound(letters, subs[k]);
    SortLetters(subs[k]);
    if |subs[k]| == 1 {
      SortOfOneLetter(subs[k]);
    }
  }

  /** Every sorted candidate drawn from the word's letters is a sorted sub-version. */
  lemma SortedSubVersionsComplete(word: string, s: seq<char>)
    requires Sorted(s) && IsCandidate(s) && multiset(s) <= multiset(WordToLetters(word))
    ensures s in SortedSubVersions(word)
  {
    var letters := WordToLetters(word);
    var subs := SubVersions(letters);
    var sorted := SortAll(subs);
    SubVersionsComplete(letters, s);
    var e :| e in subs && multiset(e) == multiset(s);
    var k :| 0 <= k < |subs| && subs[k] == e;
    SortLetters(e);
    SortedUnique(Sort(e), s);
    assert sorted[k] == s;
    DedupMembership(sorted, s);
  }

  /**
   * For a non-empty word the sorted sub-versions are exactly the sorted
   * candidate sub-multisets of its lower-cased letters.
   */
  lemma SortedSubVersionsExactly(word: string, s: seq<char>)
    requires |word| >= 1
    ensures s in SortedSubVersions(word) <==>
              Sorted(s) && IsCandidate(s) && multiset(s) <= multiset(WordToLetters(word))
  {
    if s in SortedSubVersions(word) {
      SortedSubVersionsSound(word, s);
    }
    if Sorted(s) && IsCandidate(s) && multiset(s) <= multiset(WordToLetters(word)) {
      SortedSubVersionsComplete(word, s);
    }
  }

  /**
   * For a word of two or more letters: the sorted form of every sub-multiset
   * of two or more of its letters is produced.
   */
  lemma ContainsEveryLargerSubset(word: string, t: seq<char>)
    requires multiset(t) <= multiset(WordToLetters(word))
    requires |t| >= 2
    ensures Sort(t) in SortedSubVersions(word)
  {
    SubMultisetSize(multiset(t), multiset(WordToLetters(word)));
    SortLetters(t);
    SortedSubVersionsExactly(word, Sort(t));
  }

  /**
   * For a non-empty word: a one-letter list is produced exactly when it is
   * 'a' or 'i' and the word has that letter; the empty list never is.
   */
  lemma OneLetterSubsets(word: string, c: char)
    requires |word| >= 1
    ensures [c] in SortedSubVersions(word) <==> IsSingleLetterWord(c) && c in WordToLetters(word)
    ensures [] !in SortedSubVersions(word)
  {
    SortedSubVersionsExactly(word, [c]);
    SortedSubVersionsExactly(word, []);
  }

  /** The empty word yields just the empty list. */
  lemma SortedSubVersionsOfEmpty()
    ensures SortedSubVersions("") == [[]]
  {
    assert SubVersions([]) == [[]];
    assert SortAll([[]]) == [[]];
  }
}
