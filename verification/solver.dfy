/**
 * The whole pipeline as main runs it, without the command line, file reading
 * and printing: bucket the word list by length up to the query's length,
 * enumerate the sorted sub-versions of the query, and collect the anagrams.
 */
module Solver {
  import opened Seqs
  import opened Letters
  import opened Subsets
  import opened WordIndex
  import opened Anagrams

  /** The anagrams main prints for word list `words` and query `word`. */
  function Jumble(words: seq<string>, word: string): Result<seq<string>>
  {
    AllAnagrams(SortedSubVersions(word), BuildIndex(words, |word|), word)
  }

  /** The three calls of main, in its order. */
  method Solve(words: seq<string>, word: string) returns (anagrams: Result<seq<string>>)
    ensures anagrams == Jumble(words, word)
  {
    var n := |word|;
    var wordsByLength := SeparateWordsByLen(words, n);
    var sortedSubVersions := FindSortedSubVersions(word);
    anagrams := FindAllAnagrams(sortedSubVersions, wordsByLength, word);
  }

  /** An empty query asks for words_by_len[0], which was never created. */
  lemma EmptyQueryFails(words: seq<string>)
    ensures Jumble(words, "") == Failure(MissingLength(0))
  {
    SortedSubVersionsOfEmpty();
    assert 0 !in BuildIndex(words, 0);
  }

  /** A non-empty query only looks up lengths 1..|word|, all of which exist. */
  lemma NonEmptyQuerySucceeds(words: seq<string>, word: string)
    requires |word| >= 1
    ensures Jumble(words, word).Success?
  {
    var subs := SortedSubVersions(word);
    var index := BuildIndex(words, |word|);
    forall i | 0 <= i < |subs|
      ensures |subs[i]| in index
    {
      SortedSubVersionsExactly(word, subs[i]);
      SubMultisetSize(multiset(subs[i]), multiset(WordToLetters(word)));
    }
  }

  /** The conditions under which a word is reported for a non-empty query. */
  ghost predicate Reportable(words: seq<string>, word: string, w: string)
  {
    && w != word
    && IsCandidate(w)
    && multiset(w) <= multiset(WordToLetters(word))
    && exists j :: 0 <= j < |words| && Lower(words[j]) == w
  }

  /** Every reported word meets the conditions. */
  lemma JumbleSound(words: seq<string>, word: string, w: string)
    requires |word| >= 1
    ensures Jumble(words, word).Success?
    ensures w in Jumble(words, word).value ==> Reportable(words, word, w)
  {
    NonEmptyQuerySucceeds(words, word);
    var subs := SortedSubVersions(word);
    var index := BuildIndex(words, |word|);
    if w in Jumble(words, word).value {
      BuildIndexValid(words, |word|);
      var i :| 0 <= i < |subs| && |subs[i]| in index && w in Matches(subs[i], index[|subs[i]|], word);
      var k := |subs[i]|;
      var j :| 0 <= j < |index[k]| && index[k][j].word == w && index[k][j].letters == subs[i];
      assert index[k][j] in index[k];
      assert Words(index[k])[j] == w;
      StoredWords(words, |word|, k, w);
      SortedSubVersionsSound(word, subs[i]);
      SortLetters(w);
      if |w| == 1 {
        SortOfOneLetter(w);
      }
    }
  }

  /** Every word meeting the conditions is reported. */
  lemma JumbleComplete(words: seq<string>, word: string, w: string)
    requires |word| >= 1
    requires Reportable(words, word, w)
    ensures Jumble(words, word).Success? && w in Jumble(words, word).value
  {
    NonEmptyQuerySucceeds(words, word);
    var subs := SortedSubVersions(word);
    var index := BuildIndex(words, |word|);
    BuildIndexValid(words, |word|);
    SubMultisetSize(multiset(w), multiset(WordToLetters(word)));
    var k := |w|;
    StoredWords(words, |word|, k, w);
    var j :| 0 <= j < |index[k]| && Words(index[k])[j] == w;
    assert index[k][j] in index[k];
    SortLetters(w);
    if |w| == 1 {
      SortOfOneLetter(w);
    }
    SortedSubVersionsComplete(word, Sort(w));
    var i :| 0 <= i < |subs| && subs[i] == Sort(w);
    assert w in Matches(subs[i], index[k], word);
  }

  /**
   * For a non-empty query, a word is reported exactly when it is the
   * lower-cased form of a listed word, differs from the query as typed,
   * is made of some of the query's lower-cased letters, and is two letters
   * or longer or one of 'a' and 'i'.
   */
  lemma JumbleExactly(words: seq<string>, word: string, w: string)
    requires |word| >= 1
    ensures Jumble(words, word).Success?
    ensures w in Jumble(words, word).value <==>
              && w != word
              && IsCandidate(w)
              && multiset(w) <= multiset(WordToLetters(word))
              && exists j :: 0 <= j < |words| && Lower(words[j]) == w
  {
    JumbleSound(words, word, w);
    if Reportable(words, word, w) {
      JumbleComplete(words, word, w);
    }
  }

  /** The query as typed is never reported. */
  lemma QueryNeverReported(words: seq<string>, word: string)
    requires |word| >= 1
    ensures Jumble(words, word).Success? && word !in Jumble(words, word).value
  {
    JumbleExactly(words, word, word);
  }

  /** Each word is reported at most once, even when the list repeats it. */
  lemma JumbleNoDuplicates(words: seq<string>, word: string)
    requires |word| >= 1
    ensures Jumble(words, word).Success? && NoDuplicates(Jumble(words, word).value)
  {
    NonEmptyQuerySucceeds(words, word);
    BuildIndexValid(words, |word|);
    AllAnagramsNoDuplicates(SortedSubVersions(word), BuildIndex(words, |word|), word);
  }

  /** An empty word list yields no anagrams. */
  lemma EmptyWordList(word: string)
    requires |word| >= 1
    ensures Jumble([], word) == Success([])
  {
    NonEmptyQuerySucceeds([], word);
    var result := Jumble([], word).value;
    if result != [] {
      JumbleExactly([], word, result[0]);
    }
  }

  /**
   * Only the query as typed is excluded: a listed word whose lower-cased form
   * uses all of the query's letters in another arrangement is reported
   * (for the list [dog, god] and the query "god", "dog" is).
   */
  lemma RearrangementReported(words: seq<string>, word: string, j: int)
    requires |word| >= 2
    requires 0 <= j < |words|
    requires multiset(Lower(words[j])) == multiset(WordToLetters(word))
    requires Lower(words[j]) != word
    ensures Jumble(words, word).Success? && Lower(words[j]) in Jumble(words, word).value
  {
    var w := Lower(words[j]);
    assert |w| == |multiset(w)| == |multiset(WordToLetters(word))| == |word|;
    JumbleExactly(words, word, w);
  }

  /**
   * Exclusion compares against the query as typed, while listed words are
   * stored lower-cased: a query with an upper-case letter does not exclude
   * its own lower-cased form (the query "A" reports the listed word "a").
   */
  lemma ExclusionIsCaseSensitive(words: seq<string>, word: string, j: int)
    requires IsCandidate(WordToLetters(word))
    requires word != WordToLetters(word)
    requires 0 <= j < |words| && Lower(words[j]) == WordToLetters(word)
    ensures Jumble(words, word).Success? && WordToLetters(word) in Jumble(words, word).value
  {
    JumbleExactly(words, word, WordToLetters(word));
  }
}
