/**
 * The catalog checks of check_words.py: duplicate headwords and ids that
 * must run 0, 1, ..., len-1 so that a word's id is its list position.
 */
module Catalog {
  import opened Seqs

  /**
   * One record of the word catalog: its id and headword.  The other fields
   * are read only when a word's message is formatted, which this model
   * leaves out.
   */
  datatype WordEntry = WordEntry(id: int, word: string)

  /** The `word` field of every record, in catalog order. */
  function WordTexts(words: seq<WordEntry>): (ts: seq<string>)
    ensures |ts| == |words|
    ensures forall i | 0 <= i < |words| :: ts[i] == words[i].word
  {
    seq(|words|, i requires 0 <= i < |words| => words[i].word)
  }

  /** The `id` field of every record, in catalog order. */
  function Ids(words: seq<WordEntry>): (ids: seq<int>)
    ensures |ids| == |words|
    ensures forall i | 0 <= i < |words| :: ids[i] == words[i].id
  {
    seq(|words|, i requires 0 <= i < |words| => words[i].id)
  }

  /** The keys of a `Counter` over `s`: each distinct value once, in order of first occurrence. */
  function FirstOccurrences(s: seq<string>): (keys: seq<string>)
    ensures forall x :: x in keys <==> x in s
    ensures NoDup(keys)
  {
    if s == [] then []
    else
      var keys := FirstOccurrences(s[..|s| - 1]);
      assert s == s[..|s| - 1] + [s[|s| - 1]];
      if s[|s| - 1] in keys then keys else keys + [s[|s| - 1]]
  }

  /** The keys whose count in `counts` exceeds one, in the order of `keys`. */
  function KeepRepeated(keys: seq<string>, counts: multiset<string>): (r: seq<string>)
    ensures forall x :: x in r <==> x in keys && counts[x] > 1
    ensures NoDup(keys) ==> NoDup(r)
  {
    if keys == [] then []
    else
      var rest := KeepRepeated(keys[1..], counts);
      assert NoDup(keys) ==> keys[0] !in keys[1..] && NoDup(keys[1..]) by {
        if NoDup(keys) {
          forall i, j | 0 <= i < j < |keys[1..]| ensures keys[1..][i] != keys[1..][j] {
            assert keys[1..][i] == keys[i + 1] && keys[1..][j] == keys[j + 1];
          }
        }
      }
      if counts[keys[0]] > 1 then [keys[0]] + rest else rest
  }

  lemma {:induction false} KeepNothing(keys: seq<string>, counts: multiset<string>)
    requires forall x | x in keys :: counts[x] <= 1
    ensures KeepRepeated(keys, counts) == []
  {
    if keys != [] {
      KeepNothing(keys[1..], counts);
    }
  }

  /**
   * `duplicates` of check_words.py: a headword is reported exactly when it
   * occurs more than once, and each one is reported once.
   */
  function Duplicates(words: seq<WordEntry>): (d: seq<string>)
    ensures forall x :: x in d <==> multiset(WordTexts(words))[x] > 1
    ensures NoDup(d)
  {
    KeepRepeated(FirstOccurrences(WordTexts(words)), multiset(WordTexts(words)))
  }

  lemma {:induction false} DistinctCountsOnce(s: seq<string>, x: string)
    requires NoDup(s)
    ensures multiset(s)[x] <= 1
  {
    if s != [] {
      var rest := s[1..];
      assert s == [s[0]] + rest;
      assert NoDup(rest) by {
        forall i, j | 0 <= i < j < |rest| ensures rest[i] != rest[j] {
          assert rest[i] == s[i + 1] && rest[j] == s[j + 1];
        }
      }
      DistinctCountsOnce(rest, x);
      if x == s[0] {
        assert x !in rest;
      }
    }
  }

  lemma RepeatCountsTwice(s: seq<string>, i: nat, j: nat)
    requires i < j < |s| && s[i] == s[j]
    ensures multiset(s)[s[i]] >= 2
  {
    assert s == s[..j] + [s[j]] + s[j + 1..];
    assert s[..j][i] == s[i];
  }

  /** No duplicates are reported exactly when the headwords are pairwise distinct. */
  lemma NoDuplicatesIffDistinct(words: seq<WordEntry>)
    ensures Duplicates(words) == [] <==> NoDup(WordTexts(words))
  {
    var ts := WordTexts(words);
    if NoDup(ts) {
      var keys := FirstOccurrences(ts);
      forall x | x in keys ensures multiset(ts)[x] <= 1 {
        DistinctCountsOnce(ts, x);
      }
      KeepNothing(keys, multiset(ts));
    } else {
      var i, j :| 0 <= i < j < |ts| && ts[i] == ts[j];
      RepeatCountsTwice(ts, i, j);
      assert ts[i] in Duplicates(words);
    }
  }

  /** The sequential-id check of check_words.py: the ids are exactly `list(range(len(words)))`. */
  predicate IdsSequential(words: seq<WordEntry>) {
    Ids(words) == Positions(|words|)
  }

  /** The check passes exactly when every record's id is its position, and then no id repeats. */
  lemma IdsSequentialIff(words: seq<WordEntry>)
    ensures IdsSequential(words) <==> forall i | 0 <= i < |words| :: words[i].id == i
    ensures IdsSequential(words) ==> NoDup(Ids(words))
  {
    PositionsDistinct(|words|);
    if forall i | 0 <= i < |words| :: words[i].id == i {
      assert Ids(words) == Positions(|words|);
    } else {
      var i :| 0 <= i < |words| && words[i].id != i;
      assert Ids(words)[i] != Positions(|words|)[i];
    }
  }

  /** With sequential ids, looking a word up by position finds the record with that id. */
  lemma LookupByPosition(words: seq<WordEntry>, p: int)
    requires IdsSequential(words)
    requires 0 <= p < |words|
    ensures words[p].id == p
  {
    assert Ids(words)[p] == Positions(|words|)[p];
  }
}
