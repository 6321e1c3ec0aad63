/**
 * The substring trie behind the fuzzy search (FuzzySearchTree.java).
 *
 * Every non-blank word of a corpus is indexed under every non-empty
 * substring of its lower-cased text and, when pinyin is enabled, under every
 * non-empty substring of its lower-cased pinyin. A trie node is identified by
 * the path of characters that leads to it from the root, so the trie is the
 * map `data` from paths to the word sets stored at their nodes; its key set
 * is the set of nodes, and the path `[]` is the root.
 */
module FuzzyIndex {
  import opened Strings

  /** The two external behaviours the index rests on: the JDK's per-character
      lower-casing and the pinyin library, which returns the readings of a
      Han character (the empty sequence standing for `null` or an empty
      array). */
  datatype Locale = Locale(lower: char -> char, pinyin: char -> seq<string>)

  /** The character class `[一-龥]` that `convertToPinyin` converts. */
  predicate IsHan(c: char) {
    '\U{4E00}' <= c <= '\U{9FA5}'
  }

  /** What one character contributes to the pinyin text: its first reading
      if it is a Han character with one, nothing if it is a Han character
      without one, and the character itself otherwise. */
  function Syllable(loc: Locale, c: char): string {
    if IsHan(c) then
      var readings := loc.pinyin(c);
      if |readings| > 0 then readings[0] else []
    else [c]
  }

  /** The pinyin text of `s`, built left to right as `convertToPinyin` does. */
  function Pinyin(loc: Locale, s: string): string {
    if s == [] then [] else Pinyin(loc, s[..|s| - 1]) + Syllable(loc, s[|s| - 1])
  }

  lemma {:induction false} PinyinAppend(loc: Locale, s: string, t: string)
    ensures Pinyin(loc, s + t) == Pinyin(loc, s) + Pinyin(loc, t)
    decreases |t|
  {
    if t != [] {
      var t' := t[..|t| - 1];
      assert (s + t)[..|s + t| - 1] == s + t';
      assert (s + t)[|s + t| - 1] == t[|t| - 1];
      PinyinAppend(loc, s, t');
      assert Pinyin(loc, t) == Pinyin(loc, t') + Syllable(loc, t[|t| - 1]);
      assert Pinyin(loc, s + t) == Pinyin(loc, s + t') + Syllable(loc, t[|t| - 1]);
    } else {
      assert s + t == s;
    }
  }

  /** Characters outside the Han range are copied unchanged and in order. */
  lemma {:induction false} PinyinKeepsOtherText(loc: Locale, s: string)
    requires forall i | 0 <= i < |s| :: !IsHan(s[i])
    ensures Pinyin(loc, s) == s
    decreases |s|
  {
    if s != [] {
      PinyinKeepsOtherText(loc, s[..|s| - 1]);
    }
  }

  /** A Han character without a reading contributes nothing, wherever it is. */
  lemma PinyinSkipsUnreadable(loc: Locale, s: string, c: char, t: string)
    requires IsHan(c) && |loc.pinyin(c)| == 0
    ensures Pinyin(loc, s + [c] + t) == Pinyin(loc, s + t)
  {
    PinyinAppend(loc, s + [c], t);
    PinyinAppend(loc, s, t);
    assert (s + [c])[..|s + [c]| - 1] == s;
  }

  // ---------------------------------------------------------------------
  // The abstract index: which words a key finds.

  /** `k` is a non-empty substring of `s`. */
  ghost predicate IsSubKey(k: string, s: string) {
    exists i, j | 0 <= i < j <= |s| :: s[i..j] == k
  }

  /** The constructor indexes word `w` under key `k`. */
  ghost predicate Indexes(loc: Locale, enablePinyin: bool, w: string, k: string) {
    && !IsBlank(w)
    && (|| IsSubKey(k, Lower(loc.lower, w))
        || (enablePinyin && IsSubKey(k, Lower(loc.lower, Pinyin(loc, w)))))
  }

  /** The words of `corpus` that key `k` finds. */
  ghost function Hits(loc: Locale, enablePinyin: bool, corpus: seq<string>, k: string): set<string> {
    set w | w in corpus && Indexes(loc, enablePinyin, w, k)
  }

  lemma HitsSnoc(loc: Locale, enablePinyin: bool, corpus: seq<string>, w: string, k: string)
    ensures Hits(loc, enablePinyin, corpus + [w], k)
         == Hits(loc, enablePinyin, corpus, k) + (if Indexes(loc, enablePinyin, w, k) then {w} else {})
  {
  }

  /** Completeness: every non-empty substring of a non-blank word finds it. */
  lemma SubstringFindsWord(loc: Locale, enablePinyin: bool, corpus: seq<string>, w: string, i: nat, j: nat)
    requires w in corpus && !IsBlank(w)
    requires i < j <= |w|
    ensures w in Hits(loc, enablePinyin, corpus, Lower(loc.lower, w[i..j]))
  {
    LowerSlice(loc.lower, w, i, j);
    var L := Lower(loc.lower, w);
    assert L[i..j] == Lower(loc.lower, w[i..j]);
  }

  /** With pinyin enabled, every non-empty substring of a word's pinyin finds
      the original word. */
  lemma PinyinSubstringFindsWord(loc: Locale, corpus: seq<string>, w: string, i: nat, j: nat)
    requires w in corpus && !IsBlank(w)
    requires i < j <= |Pinyin(loc, w)|
    ensures w in Hits(loc, true, corpus, Lower(loc.lower, Pinyin(loc, w)[i..j]))
  {
    var P := Pinyin(loc, w);
    LowerSlice(loc.lower, P, i, j);
    var L := Lower(loc.lower, P);
    assert L[i..j] == Lower(loc.lower, P[i..j]);
  }

  /** `k` occurs in `s` starting at index `i`. */
  ghost predicate OccursAt(k: string, s: string, i: nat) {
    i + |k| <= |s| && s[i..i + |k|] == k
  }

  /** Soundness: a word that a key finds is a non-blank corpus word whose
      lower-cased text, or lower-cased pinyin when enabled, contains the key
      at some position. */
  lemma FoundWordContainsKey(loc: Locale, enablePinyin: bool, corpus: seq<string>, k: string, w: string)
    requires w in Hits(loc, enablePinyin, corpus, k)
    ensures w in corpus && !IsBlank(w) && |k| >= 1
    ensures || (exists i :: OccursAt(k, Lower(loc.lower, w), i))
            || (enablePinyin && exists i :: OccursAt(k, Lower(loc.lower, Pinyin(loc, w)), i))
  {
    var L := Lower(loc.lower, w);
    var P := Lower(loc.lower, Pinyin(loc, w));
    if IsSubKey(k, L) {
      var i, j :| 0 <= i < j <= |L| && L[i..j] == k;
      assert OccursAt(k, L, i);
    } else {
      assert enablePinyin && IsSubKey(k, P);
      var i, j :| 0 <= i < j <= |P| && P[i..j] == k;
      assert OccursAt(k, P, i);
      assert exists i' :: OccursAt(k, Lower(loc.lower, Pinyin(loc, w)), i');
    }
  }

  /** Blank corpus entries are never found. */
  lemma BlankNeverFound(loc: Locale, enablePinyin: bool, corpus: seq<string>, k: string, w: string)
    requires IsBlank(w)
    ensures w !in Hits(loc, enablePinyin, corpus, k)
  {
  }

  /** The empty key finds nothing, so the root's word set stays empty. */
  lemma EmptyKeyFindsNothing(loc: Locale, enablePinyin: bool, corpus: seq<string>)
    ensures Hits(loc, enablePinyin, corpus, []) == {}
  {
  }

  /** A word found by a key is found by every non-empty prefix of it; so once
      some prefix finds nothing, the whole key finds nothing. */
  lemma PrefixFindsMore(loc: Locale, enablePinyin: bool, corpus: seq<string>, k: string, n: nat)
    requires 1 <= n <= |k|
    ensures Hits(loc, enablePinyin, corpus, k) <= Hits(loc, enablePinyin, corpus, k[..n])
  {
    forall w | w in Hits(loc, enablePinyin, corpus, k)
      ensures Indexes(loc, enablePinyin, w, k[..n])
    {
      var L := Lower(loc.lower, w);
      var P := Lower(loc.lower, Pinyin(loc, w));
      if IsSubKey(k, L) {
        var i, j :| 0 <= i < j <= |L| && L[i..j] == k;
        assert L[i..i + n] == k[..n];
      } else {
        var i, j :| 0 <= i < j <= |P| && P[i..j] == k;
        assert P[i..i + n] == k[..n];
      }
    }
  }

  // ---------------------------------------------------------------------
  // The trie as a map from node paths to word sets.

  /** The word set stored at path `k`; no node stores nothing. */
  function At(m: map<string, set<string>>, k: string): set<string> {
    if k in m then m[k] else {}
  }

  /** The paths from the root to the node of `key`, both ends included. */
  function Prefixes(key: string): set<string> {
    set n | 0 <= n <= |key| :: key[..n]
  }

  /** The trie after `insert`: the nodes on the path of `key` exist and the
      end node's set holds `word`; every other set is unchanged. */
  function Inserted(m: map<string, set<string>>, key: string, word: string): (r: map<string, set<string>>)
    ensures r.Keys == m.Keys + Prefixes(key)
    ensures key in r && r[key] == At(m, key) + {word}
    ensures forall k | k != key :: At(r, k) == At(m, k)
  {
    assert key[..|key|] == key;
    map k | k in m.Keys + Prefixes(key) :: if k == key then At(m, k) + {word} else At(m, k)
  }

  /** Once the path of `key` exists and no set has changed, adding `word`
      at its end is `Inserted`. */
  lemma InsertedIs(m0: map<string, set<string>>, m1: map<string, set<string>>, key: string, word: string)
    requires m1.Keys == m0.Keys + Prefixes(key) && key in m1
    requires forall k :: At(m1, k) == At(m0, k)
    ensures m1[key := m1[key] + {word}] == Inserted(m0, key, word)
  {
    var r := m1[key := m1[key] + {word}];
    var e := Inserted(m0, key, word);
    assert r.Keys == e.Keys;
    forall k | k in r ensures r[k] == e[k] {
      assert At(m1, k) == At(m0, k);
      assert At(e, k) == e[k];
    }
  }

  /** Inserting the same (key, word) pair twice changes nothing. */
  lemma InsertTwice(m: map<string, set<string>>, key: string, word: string)
    ensures Inserted(Inserted(m, key, word), key, word) == Inserted(m, key, word)
  {
    var once := Inserted(m, key, word);
    var twice := Inserted(once, key, word);
    assert twice.Keys == once.Keys;
    forall k | k in once ensures twice[k] == once[k] {
      assert At(twice, k) == At(once, k);
    }
  }

  lemma PrefixesSnoc(key: string, i: nat)
    requires i < |key|
    ensures Prefixes(key[..i + 1]) == Prefixes(key[..i]) + {key[..i + 1]}
  {
    forall x | x in Prefixes(key[..i + 1]) ensures x in Prefixes(key[..i]) || x == key[..i + 1] {
      var n :| 0 <= n <= i + 1 && x == key[..i + 1][..n];
      if n <= i {
        assert x == key[..i][..n];
      } else {
        assert x == key[..i + 1];
      }
    }
    forall x | x in Prefixes(key[..i]) ensures x in Prefixes(key[..i + 1]) {
      var n :| 0 <= n <= i && x == key[..i][..n];
      assert x == key[..i + 1][..n];
    }
    assert key[..i + 1] == key[..i + 1][..i + 1];
  }

  /** The shape every trie keeps: the root exists and every node's parent does. */
  ghost predicate PrefixClosed(m: map<string, set<string>>) {
    && [] in m
    && forall k, n | k in m && 0 <= n <= |k| :: k[..n] in m
  }

  /** The keys the inner loop of the constructor has inserted for substrings
      of `s` starting before `i`, or at `i` and ending before `j`. */
  ghost predicate InsertedSoFar(s: string, k: string, i: nat, j: nat) {
    || StartedBefore(s, k, i)
    || (exists b | i < b < j && b <= |s| :: s[i..b] == k)
  }

  /** The keys the constructor has inserted for substrings of `s` starting
      before `i`. */
  ghost predicate StartedBefore(s: string, k: string, i: nat) {
    exists a, b | 0 <= a < i && a < b <= |s| :: s[a..b] == k
  }

  class FuzzySearchTree {
    const locale: Locale
    const enablePinyin: bool
    /** The word list the constructor was given. */
    ghost const corpus: seq<string>
    /** Node path to the node's word set; the root is the path `[]`. */
    var data: map<string, set<string>>

    ghost predicate Valid()
      reads this
    {
      PrefixClosed(data)
    }

    /** The trie holds exactly the abstract index of `corpus`: every node's
        set is what its path finds, and the nodes are the root and the keys
        that find something. */
    ghost predicate Indexed()
      reads this
    {
      && (forall k :: At(data, k) == Hits(locale, enablePinyin, corpus, k))
      && (forall k :: k in data <==> k == [] || Hits(locale, enablePinyin, corpus, k) != {})
    }

    constructor (words: seq<string>, enablePinyin: bool, locale: Locale)
      ensures Valid() && Indexed()
      ensures this.corpus == words && this.enablePinyin == enablePinyin && this.locale == locale
    {
      this.locale := locale;
      this.enablePinyin := enablePinyin;
      this.corpus := words;
      data := map[[] := {}];
      new;
      for n := 0 to |words|
        invariant Valid()
        invariant forall k :: At(data, k) == Hits(locale, enablePinyin, words[..n], k)
        invariant forall k :: k in data <==> k == [] || Hits(locale, enablePinyin, words[..n], k) != {}
      {
        ghost var before := data;
        IndexWord(words[n]);
        IndexedStep(locale, enablePinyin, words, n, before, data);
      }
      assert words[..|words|] == words;
    }

    /** The body of the constructor's loop: a non-blank word is inserted
        under every substring of its text and, with pinyin enabled, of its
        pinyin; a blank word is skipped. */
    method IndexWord(word: string)
      requires Valid()
      modifies this
      ensures Valid()
      ensures forall k :: k in data <==> k in old(data) || Indexes(locale, enablePinyin, word, k)
      ensures forall k :: At(data, k) == At(old(data), k) + (if Indexes(locale, enablePinyin, word, k) then {word} else {})
    {
      if !IsBlank(word) {
        InsertSubstrings(word, word);
        if enablePinyin {
          var pinyin := ConvertToPinyin(word);
          InsertSubstrings(pinyin, word);
        }
      }
    }

    /** `insert`: walks the lower-cased `sub`, creating missing nodes, and
        adds `word` to the node it ends on. */
    method Insert(sub: string, word: string)
      requires Valid()
      modifies this
      ensures Valid()
      ensures data == Inserted(old(data), Lower(locale.lower, sub), word)
    {
      var key := Lower(locale.lower, sub);
      var node: string := [];
      for i := 0 to |key|
        invariant node == key[..i] && node in data
        invariant PrefixClosed(data)
        invariant data.Keys == old(data).Keys + Prefixes(key[..i])
        invariant forall k :: At(data, k) == At(old(data), k)
      {
        assert key[..i + 1][..i] == node;
        node := node + [key[i]];
        if node !in data {
          data := data[node := {}];
        }
        PrefixesSnoc(key, i);
      }
      assert key[..|key|] == key;
      InsertedIs(old(data), data, key, word);
      data := data[node := data[node] + {word}];
    }

    /** The two nested loops of the constructor: insert every non-empty
        substring `s[i..j]` of `s` with `word`. */
    method InsertSubstrings(s: string, word: string)
      requires Valid()
      modifies this
      ensures Valid()
      ensures forall k :: k in data <==> k in old(data) || IsSubKey(k, Lower(locale.lower, s))
      ensures forall k :: At(data, k) == At(old(data), k) + (if IsSubKey(k, Lower(locale.lower, s)) then {word} else {})
    {
      ghost var L := Lower(locale.lower, s);
      for i := 0 to |s|
        invariant Valid()
        invariant forall k :: k in data <==> k in old(data) || StartedBefore(L, k, i)
        invariant forall k :: At(data, k) == At(old(data), k) + (if StartedBefore(L, k, i) then {word} else {})
      {
        forall k ensures InsertedSoFar(L, k, i, i + 1) <==> StartedBefore(L, k, i) {
          RowStart(L, k, i);
        }
        for j := i + 1 to |s| + 1
          invariant Valid()
          invariant forall k :: k in data <==> k in old(data) || InsertedSoFar(L, k, i, j)
          invariant forall k :: At(data, k) == At(old(data), k) + (if InsertedSoFar(L, k, i, j) then {word} else {})
        {
          ghost var before := data;
          LowerSlice(locale.lower, s, i, j);
          Insert(s[i..j], word);
          InsertStep(L, i, j, word, old(data), before, data);
        }
        ghost var rowEnd, next := |s| + 1, i + 1;
        forall k ensures InsertedSoFar(L, k, i, rowEnd) <==> StartedBefore(L, k, next) {
          RowDone(L, k, i);
        }
      }
      forall k ensures StartedBefore(L, k, |s|) <==> IsSubKey(k, L) {
        if IsSubKey(k, L) {
          var a, b :| 0 <= a < b <= |L| && L[a..b] == k;
          assert a < |s|;
        }
      }
    }

    /** `convertToPinyin`: appends each character's syllable to a builder. */
    method ConvertToPinyin(chinese: string) returns (pinyin: string)
      ensures pinyin == Pinyin(locale, chinese)
    {
      pinyin := [];
      for i := 0 to |chinese|
        invariant pinyin == Pinyin(locale, chinese[..i])
      {
        var ch := chinese[i];
        assert chinese[..i + 1][..i] == chinese[..i];
        if IsHan(ch) {
          var readings := locale.pinyin(ch);
          if |readings| > 0 {
            pinyin := pinyin + readings[0];
          }
        } else {
          pinyin := pinyin + [ch];
        }
      }
      assert chinese[..|chinese|] == chinese;
    }

    /** `search`: follows the lower-cased query from the root and returns the
        set of the node reached, or nothing as soon as a character has no
        child. The result is what the query finds in the corpus. */
    method Search(query: string) returns (r: set<string>)
      requires Valid() && Indexed()
      ensures r == Hits(locale, enablePinyin, corpus, Lower(locale.lower, query))
    {
      var q := Lower(locale.lower, query);
      var node: string := [];
      for i := 0 to |q|
        invariant node == q[..i] && node in data
      {
        assert q[..i + 1][..i] == node;
        node := node + [q[i]];
        if node !in data {
          assert q[..i + 1] == node;
          assert At(data, q) == {};
          return {};
        }
      }
      assert node == q;
      r := data[node];
    }
  }

  /** One more word indexed keeps the trie equal to the index of the words
      so far. */
  lemma IndexedStep(loc: Locale, enablePinyin: bool, words: seq<string>, n: nat,
                    before: map<string, set<string>>, after: map<string, set<string>>)
    requires n < |words|
    requires forall k :: At(before, k) == Hits(loc, enablePinyin, words[..n], k)
    requires forall k :: k in before <==> k == [] || Hits(loc, enablePinyin, words[..n], k) != {}
    requires forall k :: k in after <==> k in before || Indexes(loc, enablePinyin, words[n], k)
    requires forall k :: At(after, k) == At(before, k) + (if Indexes(loc, enablePinyin, words[n], k) then {words[n]} else {})
    ensures forall k :: At(after, k) == Hits(loc, enablePinyin, words[..n + 1], k)
    ensures forall k :: k in after <==> k == [] || Hits(loc, enablePinyin, words[..n + 1], k) != {}
  {
    assert words[..n + 1] == words[..n] + [words[n]];
    forall k ensures At(after, k) == Hits(loc, enablePinyin, words[..n + 1], k)
                  && (k in after <==> k == [] || Hits(loc, enablePinyin, words[..n + 1], k) != {})
    {
      HitsSnoc(loc, enablePinyin, words[..n], words[n], k);
    }
  }

  /** One step of the inner constructor loop: inserting `s[i..j]` creates
      exactly the nodes for the keys inserted up to and including it, and
      adds `word` exactly under those keys. */
  lemma InsertStep(s: string, i: nat, j: nat, word: string,
                   start: map<string, set<string>>, before: map<string, set<string>>, after: map<string, set<string>>)
    requires i < j <= |s|
    requires PrefixClosed(before)
    requires forall k :: k in before <==> k in start || InsertedSoFar(s, k, i, j)
    requires forall k :: At(before, k) == At(start, k) + (if InsertedSoFar(s, k, i, j) then {word} else {})
    requires after == Inserted(before, s[i..j], word)
    ensures forall k :: k in after <==> k in start || InsertedSoFar(s, k, i, j + 1)
    ensures forall k :: At(after, k) == At(start, k) + (if InsertedSoFar(s, k, i, j + 1) then {word} else {})
  {
    var key := s[i..j];
    assert !InsertedSoFar(s, [], i, j);
    forall k ensures (k in after <==> k in start || InsertedSoFar(s, k, i, j + 1))
                  && At(after, k) == At(start, k) + (if InsertedSoFar(s, k, i, j + 1) then {word} else {})
    {
      InsertedSoFarExtend(s, k, i, j);
      if k in Prefixes(key) && k != key && k != [] {
        PrefixAlreadyInserted(s, k, i, j);
      }
    }
  }

  lemma InsertedSoFarExtend(s: string, k: string, i: nat, j: nat)
    requires i < j <= |s|
    ensures InsertedSoFar(s, k, i, j + 1) <==> InsertedSoFar(s, k, i, j) || k == s[i..j]
  {
    if k == s[i..j] {
      assert InsertedSoFar(s, k, i, j + 1);
    }
  }

  lemma PrefixAlreadyInserted(s: string, p: string, i: nat, j: nat)
    requires i < j <= |s|
    requires p in Prefixes(s[i..j]) && p != s[i..j] && p != []
    ensures InsertedSoFar(s, p, i, j)
  {
    var n :| 0 <= n <= j - i && p == s[i..j][..n];
    assert 0 < n < j - i;
    assert p == s[i..i + n];
  }

  /** Finishing row `i` of the constructor's loops is the same as starting row `i + 1`. */
  lemma RowDone(s: string, k: string, i: nat)
    requires i < |s|
    ensures InsertedSoFar(s, k, i, |s| + 1) <==> StartedBefore(s, k, i + 1)
  {
    if InsertedSoFar(s, k, i, |s| + 1) && !StartedBefore(s, k, i) {
      var b :| i < b < |s| + 1 && b <= |s| && s[i..b] == k;
      assert StartedBefore(s, k, i + 1);
    }
    if StartedBefore(s, k, i + 1) && !StartedBefore(s, k, i) {
      var a, b :| 0 <= a < i + 1 && a < b <= |s| && s[a..b] == k;
      assert a == i;
    }
  }

  lemma RowStart(s: string, k: string, i: nat)
    ensures InsertedSoFar(s, k, i, i + 1) <==> StartedBefore(s, k, i)
  {
  }
}
