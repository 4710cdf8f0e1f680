/**
 * Dictionary bucketing: separate_words_by_len maps each length 1..n to an
 * insertion-ordered dictionary from lower-cased word to its sorted letters.
 * Python dictionaries iterate in insertion order and assigning an existing
 * key keeps its position, so a bucket is modelled as a list of entries with
 * distinct words.
 */
module WordIndex {
  import opened Seqs
  import opened Letters

  /** One key/value pair of a bucket: a word and its sorted letters. */
  datatype Entry = Entry(word: string, letters: seq<char>)

  /** An insertion-ordered dictionary from word to sorted letters. */
  type Bucket = seq<Entry>

  /** The keys of a bucket, in iteration order. */
  function Words(b: Bucket): seq<string>
  {
    seq(|b|, i requires 0 <= i < |b| => b[i].word)
  }

  /** The position of key w, or |b| when w is absent. */
  function IndexOf(b: Bucket, w: string): (k: nat)
    ensures k <= |b|
    ensures k < |b| ==> b[k].word == w
    ensures forall j :: 0 <= j < k ==> b[j].word != w
  {
    if b == [] then 0
    else if b[0].word == w then 0
    else 1 + IndexOf(b[1..], w)
  }

  /**
   * d[w] = v: an existing key keeps its position and gets the new value, a
   * new key goes at the end.
   */
  function Put(b: Bucket, w: string, v: seq<char>): (r: Bucket)
    requires NoDuplicates(Words(b))
    ensures Words(r) == if w in Words(b) then Words(b) else Words(b) + [w]
    ensures NoDuplicates(Words(r))
  {
    var k := IndexOf(b, w);
    if k < |b| then
      assert Words(b)[k] == w;
      assert Words(b[k := Entry(w, v)]) == Words(b);
      b[k := Entry(w, v)]
    else
      assert forall j :: 0 <= j < |b| ==> Words(b)[j] != w;
      assert Words(b + [Entry(w, v)]) == Words(b) + [w];
      b + [Entry(w, v)]
  }

  /** After d[w] = v the entries are (w, v) and the old entries for other keys. */
  lemma PutEntries(b: Bucket, w: string, v: seq<char>, e: Entry)
    requires NoDuplicates(Words(b))
    ensures e in Put(b, w, v) <==> e == Entry(w, v) || (e in b && e.word != w)
  {
    var k := IndexOf(b, w);
    var r := Put(b, w, v);
    if k < |b| {
      assert r[k] == Entry(w, v);
      if e in b && e.word != w {
        var j :| 0 <= j < |b| && b[j] == e;
        assert r[j] == e;
      }
      if e in r && e != Entry(w, v) {
        var j :| 0 <= j < |r| && r[j] == e;
        assert j != k && b[j] == e;
        assert Words(b)[j] != Words(b)[k];
      }
    } else {
      assert r == b + [Entry(w, v)];
      if e in b {
        var j :| 0 <= j < |b| && b[j] == e;
      }
    }
  }

  /** The words_by_length dictionary: length to bucket. */
  type Index = map<int, Bucket>

  /** The keys are exactly 1..n and no bucket stores a word twice. */
  ghost predicate WellKeyed(index: Index, n: int)
  {
    && (forall k :: k in index <==> 1 <= k <= n)
    && (forall k :: k in index ==> NoDuplicates(Words(index[k])))
  }

  /**
   * The bucket invariant: besides being well keyed, every key is a
   * lower-case word of the bucket's length, stored with its sorted letters.
   */
  ghost predicate ValidIndex(index: Index, n: int)
  {
    && WellKeyed(index, n)
    && (forall k, e :: k in index && e in index[k] ==>
          |e.word| == k && IsLowerWord(e.word) && e.letters == Sort(e.word))
  }

  /** The first loop of separate_words_by_len: an empty bucket per length 1..n. */
  function EmptyIndex(n: int): (index: Index)
    ensures ValidIndex(index, n)
    ensures forall k :: k in index ==> index[k] == []
    decreases n
  {
    if n < 1 then map[] else EmptyIndex(n - 1)[n := []]
  }

  /** One step of the second loop: file the lower-cased word if 0 < length <= n. */
  function AddWord(index: Index, word: string, n: int): (r: Index)
    requires WellKeyed(index, n)
    ensures WellKeyed(r, n)
  {
    var w := Lower(word);
    if 0 < |w| <= n then index[|w| := Put(index[|w|], w, Sort(w))] else index
  }

  /** The result of separate_words_by_len(words, n). */
  function BuildIndex(words: seq<string>, n: int): (index: Index)
    ensures WellKeyed(index, n)
  {
    if words == [] then EmptyIndex(n)
    else AddWord(BuildIndex(words[..|words| - 1], n), words[|words| - 1], n)
  }

  /** Filing a word keeps the bucket invariant. */
  lemma AddWordValid(index: Index, word: string, n: int)
    requires ValidIndex(index, n)
    ensures ValidIndex(AddWord(index, word, n), n)
  {
    var w := Lower(word);
    if 0 < |w| <= n {
      var r := AddWord(index, word, n);
      forall k: int, e: Entry | k in r && e in r[k]
        ensures |e.word| == k && IsLowerWord(e.word) && e.letters == Sort(e.word)
      {
        if k == |w| {
          PutEntries(index[k], w, Sort(w), e);
        }
      }
    }
  }

  /** The index built from any word list satisfies the bucket invariant. */
  lemma {:induction false} BuildIndexValid(words: seq<string>, n: int)
    ensures ValidIndex(BuildIndex(words, n), n)
  {
    if words != [] {
      BuildIndexValid(words[..|words| - 1], n);
      AddWordValid(BuildIndex(words[..|words| - 1], n), words[|words| - 1], n);
    }
  }

  /** separate_words_by_len: build the empty buckets, then file every word. */
  method SeparateWordsByLen(words: seq<string>, n: int) returns (wordsByLength: Index)
    ensures wordsByLength == BuildIndex(words, n)
    ensures ValidIndex(wordsByLength, n)
  {
    wordsByLength := map[];
    var i := 1;
    while i <= n
      invariant 1 <= i <= if n >= 1 then n + 1 else 1
      invariant wordsByLength == EmptyIndex(i - 1)
    {
      wordsByLength := wordsByLength[i := []];
      i := i + 1;
    }
    assert wordsByLength == EmptyIndex(n);
    assert words[..0] == [];
    for j := 0 to |words|
      invariant wordsByLength == BuildIndex(words[..j], n)
    {
      assert words[..j + 1][..j] == words[..j];
      var word := Lower(words[j]);
      var wordLength := |word|;
      if 0 < wordLength <= n {
        wordsByLength := wordsByLength[wordLength := Put(wordsByLength[wordLength], word, Sort(word))];
      }
    }
    assert words[..|words|] == words;
    BuildIndexValid(words, n);
  }

  /** The lower-cased source words of length k, in source order, with repeats. */
  function LoweredOfLength(words: seq<string>, k: int): (r: seq<string>)
    ensures forall w :: w in r <==> |w| == k && exists j :: 0 <= j < |words| && Lower(words[j]) == w
  {
    if words == [] then []
    else
      var rest := LoweredOfLength(words[..|words| - 1], k);
      var w := Lower(words[|words| - 1]);
      assert forall j :: 0 <= j < |words| - 1 ==> words[..|words| - 1][j] == words[j];
      if |w| == k then rest + [w] else rest
  }

  /** Filing a word changes the keys of its own bucket only, as d[w] = v does. */
  lemma AddWordWords(index: Index, word: string, n: int, k: int)
    requires WellKeyed(index, n) && 1 <= k <= n
    ensures var w := Lower(word);
      Words(AddWord(index, word, n)[k]) ==
        if |w| != k then Words(index[k])
        else if w in Words(index[k]) then Words(index[k])
        else Words(index[k]) + [w]
  {
  }

  /**
   * Bucket k (for 1 <= k <= n) lists the distinct lower-cased source words of
   * length k, in the order of their first occurrence in the source.
   */
  lemma {:induction false} BucketWords(words: seq<string>, n: int, k: int)
    requires 1 <= k <= n
    ensures Words(BuildIndex(words, n)[k]) == Dedup(LoweredOfLength(words, k))
  {
    if words != [] {
      var prefix := words[..|words| - 1];
      BucketWords(prefix, n, k);
      var w := Lower(words[|words| - 1]);
      var before := LoweredOfLength(prefix, k);
      AddWordWords(BuildIndex(prefix, n), words[|words| - 1], n, k);
      if |w| == k {
        assert LoweredOfLength(words, k) == before + [w];
        DedupSnoc(before, w);
        assert w in Words(BuildIndex(prefix, n)[k]) <==> w in before;
      } else {
        assert LoweredOfLength(words, k) == before;
      }
    }
  }

  /**
   * A word is stored under key k exactly when it is the lower-cased form of
   * some source word and has length k, with 1 <= k <= n; it is stored with
   * its sorted letters.
   */
  lemma StoredWords(words: seq<string>, n: int, k: int, w: string)
    ensures (k in BuildIndex(words, n) && w in Words(BuildIndex(words, n)[k])) <==>
              1 <= k <= n && |w| == k && exists j :: 0 <= j < |words| && Lower(words[j]) == w
  {
    if 1 <= k <= n {
      BucketWords(words, n, k);
      var b := BuildIndex(words, n)[k];
      assert w in Words(b) <==> w in Dedup(LoweredOfLength(words, k));
    }
  }
}
