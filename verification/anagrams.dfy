/**
 * Matching: find_anagrams scans one bucket for words whose sorted letters
 * equal a subset, skipping the query word; find_all_anagrams does that for
 * every subset, in order, in the bucket of the subset's length.
 */
module Anagrams {
  import opened Seqs
  import opened Letters
  import opened WordIndex

  /** words_by_len[n] raises a KeyError when n is not a key. */
  datatype KeyError = MissingLength(length: int)

  datatype Result<T> = Success(value: T) | Failure(error: KeyError)

  /** letters_match: list equality, element by element. */
  function LettersMatch(subversion: seq<char>, prospect: seq<char>): (r: bool)
    ensures r <==> |subversion| == |prospect| &&
                   forall k :: 0 <= k < |subversion| ==> subversion[k] == prospect[k]
  {
    subversion == prospect
  }

  /**
   * Against a stored signature, letters_match is the anagram test: a sorted
   * subset matches Sort(word) exactly when it has the word's letters.
   */
  lemma MatchIsAnagram(subversion: seq<char>, word: string)
    requires Sorted(subversion)
    ensures LettersMatch(subversion, Sort(word)) <==> multiset(subversion) == multiset(word)
  {
    SortLetters(word);
    if multiset(subversion) == multiset(word) {
      SortedUnique(subversion, Sort(word));
    }
  }

  /** The result of find_anagrams: the matching words other than origWord, in bucket order. */
  function Matches(subversion: seq<char>, entries: Bucket, origWord: string): (r: seq<string>)
    ensures forall w :: w in r <==>
              w != origWord &&
              exists i :: 0 <= i < |entries| && entries[i].word == w && entries[i].letters == subversion
    ensures NoDuplicates(Words(entries)) ==> NoDuplicates(r)
  {
    if entries == [] then []
    else
      var prefix := entries[..|entries| - 1];
      var e := entries[|entries| - 1];
      var rest := Matches(subversion, prefix, origWord);
      assert forall i :: 0 <= i < |prefix| ==> prefix[i] == entries[i];
      assert NoDuplicates(Words(entries)) ==> NoDuplicates(Words(prefix)) by {
        assert forall i :: 0 <= i < |prefix| ==> Words(prefix)[i] == Words(entries)[i];
      }
      assert NoDuplicates(Words(entries)) ==> e.word !in rest by {
        forall i | 0 <= i < |prefix|
          ensures NoDuplicates(Words(entries)) ==> prefix[i].word != e.word
        {
          assert Words(entries)[i] == prefix[i].word;
          assert Words(entries)[|entries| - 1] == e.word;
        }
      }
      if LettersMatch(subversion, e.letters) && e.word != origWord then rest + [e.word] else rest
  }

  /** find_anagrams, over the bucket's items in iteration order. */
  method FindAnagrams(subversion: seq<char>, words: Bucket, origWord: string) returns (anagrams: seq<string>)
    ensures anagrams == Matches(subversion, words, origWord)
    ensures origWord !in anagrams
  {
    anagrams := [];
    for i := 0 to |words|
      invariant anagrams == Matches(subversion, words[..i], origWord)
    {
      assert words[..i + 1][..i] == words[..i];
      var entry := words[i];
      if LettersMatch(subversion, entry.letters) {
        if entry.word != origWord {
          anagrams := anagrams + [entry.word];
        }
      }
    }
    assert words[..|words|] == words;
  }

  /**
   * The result of find_all_anagrams: the concatenation of Matches over the
   * subsets in order, or the KeyError of the first subset whose length is
   * not a key.
   */
  function AllAnagrams(subVersions: seq<seq<char>>, wordsByLen: Index, origWord: string): (r: Result<seq<string>>)
    ensures r.Success? <==> forall i :: 0 <= i < |subVersions| ==> |subVersions[i]| in wordsByLen
    ensures r.Failure? ==>
              exists i :: 0 <= i < |subVersions| && r.error == MissingLength(|subVersions[i]|) &&
                |subVersions[i]| !in wordsByLen &&
                forall j :: 0 <= j < i ==> |subVersions[j]| in wordsByLen
    ensures r.Success? ==>
              forall w :: w in r.value <==>
                exists i :: 0 <= i < |subVersions| && |subVersions[i]| in wordsByLen &&
                  w in Matches(subVersions[i], wordsByLen[|subVersions[i]|], origWord)
  {
    if subVersions == [] then Success([])
    else
      var prefix := subVersions[..|subVersions| - 1];
      var s := subVersions[|subVersions| - 1];
      assert forall i :: 0 <= i < |prefix| ==> prefix[i] == subVersions[i];
      match AllAnagrams(prefix, wordsByLen, origWord)
      case Failure(e) => Failure(e)
      case Success(acc) =>
        if |s| in wordsByLen then Success(acc + Matches(s, wordsByLen[|s|], origWord))
        else Failure(MissingLength(|s|))
  }

  /** find_all_anagrams, whose words_by_len[n] stops it with a KeyError. */
  method FindAllAnagrams(sortedSubVersions: seq<seq<char>>, wordsByLen: Index, origWord: string)
    returns (r: Result<seq<string>>)
    ensures r == AllAnagrams(sortedSubVersions, wordsByLen, origWord)
  {
    var allAnagrams: seq<string> := [];
    for i := 0 to |sortedSubVersions|
      invariant AllAnagrams(sortedSubVersions[..i], wordsByLen, origWord) == Success(allAnagrams)
    {
      assert sortedSubVersions[..i + 1][..i] == sortedSubVersions[..i];
      var subVersion := sortedSubVersions[i];
      var n := |subVersion|;
      if n !in wordsByLen {
        AllAnagramsFailureSticks(sortedSubVersions, i + 1, wordsByLen, origWord);
        return Failure(MissingLength(n));
      }
      var anagrams := FindAnagrams(subVersion, wordsByLen[n], origWord);
      allAnagrams := allAnagrams + anagrams;
    }
    assert sortedSubVersions[..|sortedSubVersions|] == sortedSubVersions;
    r := Success(allAnagrams);
  }

  /** Once a prefix fails, the whole list fails with the same error. */
  lemma {:induction false} AllAnagramsFailureSticks(subVersions: seq<seq<char>>, n: nat, wordsByLen: Index, origWord: string)
    requires n <= |subVersions|
    requires AllAnagrams(subVersions[..n], wordsByLen, origWord).Failure?
    ensures AllAnagrams(subVersions, wordsByLen, origWord) == AllAnagrams(subVersions[..n], wordsByLen, origWord)
    decreases |subVersions| - n
  {
    if n < |subVersions| {
      assert subVersions[..n + 1][..n] == subVersions[..n];
      AllAnagramsFailureSticks(subVersions, n + 1, wordsByLen, origWord);
    } else {
      assert subVersions[..n] == subVersions;
    }
  }

  /** A bucket stores each word once, so a word matches one signature only. */
  lemma MatchesOneSignature(b: Bucket, s1: seq<char>, s2: seq<char>, origWord: string, w: string)
    requires NoDuplicates(Words(b))
    ensures w in Matches(s1, b, origWord) && w in Matches(s2, b, origWord) ==> s1 == s2
  {
    if w in Matches(s1, b, origWord) && w in Matches(s2, b, origWord) {
      var j1 :| 0 <= j1 < |b| && b[j1].word == w && b[j1].letters == s1;
      var j2 :| 0 <= j2 < |b| && b[j2].word == w && b[j2].letters == s2;
      assert Words(b)[j1] == Words(b)[j2];
    }
  }

  /** A word found in the bucket of length k has length k. */
  lemma MatchedLength(s: seq<char>, b: Bucket, k: int, origWord: string, w: string)
    requires forall e :: e in b ==> |e.word| == k
    ensures w in Matches(s, b, origWord) ==> |w| == k
  {
    if w in Matches(s, b, origWord) {
      var j :| 0 <= j < |b| && b[j].word == w && b[j].letters == s;
      assert b[j] in b;
    }
  }

  /**
   * With distinct subsets and buckets whose words are distinct and of the
   * bucket's length, no word is reported twice.
   */
  lemma {:induction false} AllAnagramsNoDuplicates(subVersions: seq<seq<char>>, wordsByLen: Index, origWord: string)
    requires NoDuplicates(subVersions)
    requires forall k :: k in wordsByLen ==> NoDuplicates(Words(wordsByLen[k]))
    requires forall k, e :: k in wordsByLen && e in wordsByLen[k] ==> |e.word| == k
    requires AllAnagrams(subVersions, wordsByLen, origWord).Success?
    ensures NoDuplicates(AllAnagrams(subVersions, wordsByLen, origWord).value)
  {
    if subVersions != [] {
      var prefix := subVersions[..|subVersions| - 1];
      var s := subVersions[|subVersions| - 1];
      assert forall i :: 0 <= i < |prefix| ==> prefix[i] == subVersions[i];
      assert NoDuplicates(prefix);
      AllAnagramsNoDuplicates(prefix, wordsByLen, origWord);
      var acc := AllAnagrams(prefix, wordsByLen, origWord).value;
      var found := Matches(s, wordsByLen[|s|], origWord);
      forall p | 0 <= p < |acc|
        ensures acc[p] !in found
      {
        assert acc[p] in acc;
        var i :| 0 <= i < |prefix| && |prefix[i]| in wordsByLen &&
                 acc[p] in Matches(prefix[i], wordsByLen[|prefix[i]|], origWord);
        assert prefix[i] != s by {
          assert subVersions[i] != subVersions[|subVersions| - 1];
        }
        var k := |prefix[i]|;
        MatchedLength(prefix[i], wordsByLen[k], k, origWord, acc[p]);
        MatchedLength(s, wordsByLen[|s|], |s|, origWord, acc[p]);
        MatchesOneSignature(wordsByLen[k], prefix[i], s, origWord, acc[p]);
      }
      NoDuplicatesConcat(acc, found);
    }
  }
}
