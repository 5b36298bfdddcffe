/**
 * The fuzzy menu search of menu/search.go: every menu item is scored against
 * the query by greedily matching query words as prefixes of the item's name
 * words; items are kept sorted by descending score (ties by name), and the
 * results are the items before the first negative score.
 */
module Menu {
  import opened MenuText

  /** The score of an item whose alias equals the query. */
  const MaxScore := 999999

  /** An item's Action is an arbitrary value; only a function over the editor
      state can be executed. Such a function is identified here by a number. */
  datatype Action = StateAction(id: nat) | NotAStateAction

  datatype Item = Item(name: string, alias: string, action: Action)

  /** A menu item with its normalized name words and its score for the current
      query (negative means a mismatch). */
  datatype ScoredItem = ScoredItem(score: int, words: seq<string>, item: Item)

  /** The score every item starts from: 0 when the empty query shows every
      item, -1 otherwise. */
  function InitialScore(emptyQueryShowAll: bool): int {
    if emptyQueryShowAll then 0 else -1
  }

  /** Points for matching query word j in candidate word i: its length in
      bytes, doubled when the first query word matches the first candidate word. */
  function Points(i: nat, j: nat, qw: string): nat {
    if i == 0 && j == 0 then 2 * Utf8Len(qw) else Utf8Len(qw)
  }

  /** The greedy matching loop of calculateScore run from candidate word i and
      query word j with the given score: it returns the final score and the
      number of query words matched. */
  function Greedy(cw: seq<string>, qw: seq<string>, i: nat, j: nat, score: int): (r: (int, nat))
    requires i <= |cw| && j <= |qw|
    ensures j <= r.1 <= |qw|
    decreases |cw| - i
  {
    if i < |cw| && j < |qw| then
      if IsPrefix(qw[j], cw[i]) then Greedy(cw, qw, i + 1, j + 1, score + Points(i, j, qw[j]))
      else Greedy(cw, qw, i + 1, j, score)
    else (score, j)
  }

  /** The score calculateScore gives a candidate with the given alias and
      name words for a query (raw text and words). */
  function ScoreOf(alias: string, query: string, emptyQueryShowAll: bool,
                   cw: seq<string>, qw: seq<string>): int
  {
    if alias != [] && alias == query then MaxScore
    else
      var (score, matched) := Greedy(cw, qw, 0, 0, InitialScore(emptyQueryShowAll));
      if matched < |qw| then -1
      else if score >= MaxScore then MaxScore - 1
      else score
  }

  /** Reference definition of a match, independent of the greedy strategy:
      the query words can be matched, in order, as prefixes of distinct
      candidate words (any choice of candidate words, not just the first
      that fits). */
  predicate Embeds(q: seq<string>, c: seq<string>)
    decreases |c|
  {
    if q == [] then true
    else if c == [] then false
    else (IsPrefix(q[0], c[0]) && Embeds(q[1..], c[1..])) || Embeds(q, c[1..])
  }

  /** Dropping the first query word keeps a match. */
  lemma {:induction false} EmbedsDropFirst(q: seq<string>, c: seq<string>)
    requires q != [] && Embeds(q, c)
    ensures Embeds(q[1..], c)
    decreases |c|
  {
    if c != [] {
      if IsPrefix(q[0], c[0]) && Embeds(q[1..], c[1..]) {
        EmbedsSkip(q[1..], c);
      } else {
        EmbedsDropFirst(q, c[1..]);
        EmbedsSkip(q[1..], c);
      }
    }
  }

  /** A match that skips the first candidate word is a match. */
  lemma EmbedsSkip(q: seq<string>, c: seq<string>)
    requires c != [] && Embeds(q, c[1..])
    ensures Embeds(q, c)
  {
  }

  /** Greedy matching from (i, j) matches every remaining query word exactly
      when the remaining query words can be matched at all. */
  lemma {:induction false} GreedyIsComplete(cw: seq<string>, qw: seq<string>, i: nat, j: nat, score: int)
    requires i <= |cw| && j <= |qw|
    ensures Greedy(cw, qw, i, j, score).1 == |qw| <==> Embeds(qw[j..], cw[i..])
    decreases |cw| - i
  {
    if i < |cw| && j < |qw| {
      var q, c := qw[j..], cw[i..];
      assert q[0] == qw[j] && q[1..] == qw[j + 1..];
      assert c[0] == cw[i] && c[1..] == cw[i + 1..];
      if IsPrefix(qw[j], cw[i]) {
        GreedyIsComplete(cw, qw, i + 1, j + 1, score + Points(i, j, qw[j]));
        if Embeds(q, c[1..]) {
          EmbedsDropFirst(q, c[1..]);
        }
      } else {
        GreedyIsComplete(cw, qw, i + 1, j, score);
      }
    } else if j == |qw| {
      assert qw[j..] == [];
    } else {
      assert cw[i..] == [];
    }
  }

  /** Total length in bytes of a list of words. */
  function SumLen(ws: seq<string>): nat {
    if ws == [] then 0 else Utf8Len(ws[0]) + SumLen(ws[1..])
  }

  /** Past the first candidate word there is no bonus: the greedy loop adds
      the byte length of every query word it matches. */
  lemma {:induction false} GreedyScoreNoBonus(cw: seq<string>, qw: seq<string>, i: nat, j: nat, score: int)
    requires 1 <= i <= |cw| && j <= |qw|
    ensures var r := Greedy(cw, qw, i, j, score); r.0 == score + SumLen(qw[j..r.1])
    decreases |cw| - i
  {
    var r := Greedy(cw, qw, i, j, score);
    if i < |cw| && j < |qw| {
      if IsPrefix(qw[j], cw[i]) {
        GreedyScoreNoBonus(cw, qw, i + 1, j + 1, score + Utf8Len(qw[j]));
        assert qw[j..r.1][0] == qw[j] && qw[j..r.1][1..] == qw[j + 1..r.1];
      } else {
        GreedyScoreNoBonus(cw, qw, i + 1, j, score);
      }
    } else {
      assert qw[j..r.1] == [];
    }
  }

  /** The extra points for the first query word matching the first candidate word. */
  function FirstWordBonus(cw: seq<string>, qw: seq<string>): nat {
    if cw != [] && qw != [] && IsPrefix(qw[0], cw[0]) then Utf8Len(qw[0]) else 0
  }

  /** The alias case: an item whose non-empty alias equals the raw query
      scores MaxScore. */
  lemma AliasScoresMax(alias: string, query: string, e: bool, cw: seq<string>, qw: seq<string>)
    requires alias != [] && alias == query
    ensures ScoreOf(alias, query, e, cw, qw) == MaxScore
  {
  }

  /** If some query word cannot be matched, the score is -1. */
  lemma UnmatchedScoresMinusOne(alias: string, query: string, e: bool, cw: seq<string>, qw: seq<string>)
    requires !(alias != [] && alias == query) && !Embeds(qw, cw)
    ensures ScoreOf(alias, query, e, cw, qw) == -1
  {
    GreedyIsComplete(cw, qw, 0, 0, InitialScore(e));
    assert qw[0..] == qw && cw[0..] == cw;
  }

  /** When the greedy loop matches every query word, its score is the start
      score plus the byte length of every query word plus the first-word bonus. */
  lemma GreedyTotal(cw: seq<string>, qw: seq<string>, init: int)
    requires Greedy(cw, qw, 0, 0, init).1 == |qw|
    ensures Greedy(cw, qw, 0, 0, init).0 == init + SumLen(qw) + FirstWordBonus(cw, qw)
  {
    if cw != [] && qw != [] {
      if IsPrefix(qw[0], cw[0]) {
        var bonus := init + 2 * Utf8Len(qw[0]);
        assert Greedy(cw, qw, 0, 0, init) == Greedy(cw, qw, 1, 1, bonus);
        GreedyScoreNoBonus(cw, qw, 1, 1, bonus);
        assert qw[1..|qw|] == qw[1..];
      } else {
        assert Greedy(cw, qw, 0, 0, init) == Greedy(cw, qw, 1, 0, init);
        GreedyScoreNoBonus(cw, qw, 1, 0, init);
        assert qw[0..|qw|] == qw;
      }
    }
  }

  /** If every query word can be matched, the score is the initial score plus
      the byte length of every query word, plus the first-word bonus, capped
      at MaxScore - 1. */
  lemma MatchedScore(alias: string, query: string, e: bool, cw: seq<string>, qw: seq<string>)
    requires !(alias != [] && alias == query) && Embeds(qw, cw)
    ensures var total := InitialScore(e) + SumLen(qw) + FirstWordBonus(cw, qw);
            ScoreOf(alias, query, e, cw, qw) == if total >= MaxScore then MaxScore - 1 else total
  {
    var init := InitialScore(e);
    GreedyIsComplete(cw, qw, 0, 0, init);
    assert qw[0..] == qw && cw[0..] == cw;
    GreedyTotal(cw, qw, init);
  }

  /** Bounds on every score: without the alias match it is at most
      MaxScore - 1, and at least -1; a full match scores at least the
      initial score. */
  lemma ScoreBounds(alias: string, query: string, e: bool, cw: seq<string>, qw: seq<string>)
    requires !(alias != [] && alias == query)
    ensures -1 <= ScoreOf(alias, query, e, cw, qw) <= MaxScore - 1
    ensures Embeds(qw, cw) ==> ScoreOf(alias, query, e, cw, qw) >= InitialScore(e)
    ensures (forall w :: w in qw ==> w != []) ==>
              (ScoreOf(alias, query, e, cw, qw) < 0 <==> !Embeds(qw, cw) || (qw == [] && !e))
  {
    if Embeds(qw, cw) {
      MatchedScore(alias, query, e, cw, qw);
      if qw != [] {
        assert qw[0] in qw;
        assert SumLen(qw) >= Utf8Len(qw[0]) >= |qw[0]|;
      }
    } else {
      UnmatchedScoresMinusOne(alias, query, e, cw, qw);
    }
  }

  /** The empty query: every item keeps the initial score. */
  lemma EmptyQueryScore(alias: string, e: bool, cw: seq<string>)
    ensures ScoreOf(alias, [], e, cw, []) == InitialScore(e)
  {
  }

  /* ----- ordering ----- */

  /** The comparator of sortItemsByScore: x goes before y when it has the
      higher score, or the same score and a lexicographically smaller name. */
  predicate Before(x: ScoredItem, y: ScoredItem) {
    if x.score == y.score then StrLess(x.item.name, y.item.name) else x.score > y.score
  }

  /** Two items the comparator cannot tell apart. */
  predicate SameKey(x: ScoredItem, y: ScoredItem) {
    x.score == y.score && x.item.name == y.item.name
  }

  /** Ordered by descending score, ties by ascending name. */
  predicate Sorted(s: seq<ScoredItem>) {
    forall i, j :: 0 <= i < j < |s| ==> !Before(s[j], s[i])
  }

  lemma BeforeAsymmetric(x: ScoredItem, y: ScoredItem)
    ensures Before(x, y) ==> !Before(y, x)
  {
    StrLessAsymmetric(x.item.name, y.item.name);
  }

  /** Not-before is transitive (the comparator is a strict weak order). */
  lemma NotBeforeTransitive(x: ScoredItem, y: ScoredItem, z: ScoredItem)
    requires !Before(x, y) && !Before(y, z)
    ensures !Before(x, z)
  {
    StrLessTotal(x.item.name, y.item.name);
    StrLessTotal(y.item.name, z.item.name);
    StrLessTransitive(z.item.name, y.item.name, x.item.name);
    StrLessAsymmetric(x.item.name, z.item.name);
    StrLessTransitive(x.item.name, z.item.name, y.item.name);
    StrLessTransitive(z.item.name, x.item.name, y.item.name);
    StrLessAsymmetric(x.item.name, y.item.name);
    StrLessAsymmetric(y.item.name, z.item.name);
  }

  /** Inserts x into a sorted list before the first element that does not go
      strictly before it. */
  function Insert(x: ScoredItem, s: seq<ScoredItem>): seq<ScoredItem> {
    if s == [] then [x]
    else if Before(s[0], x) then [s[0]] + Insert(x, s[1..])
    else [x] + s
  }

  /** The result of sort.SliceStable with the comparator Before. */
  function SortByScore(s: seq<ScoredItem>): seq<ScoredItem> {
    if s == [] then [] else Insert(s[0], SortByScore(s[1..]))
  }

  lemma {:induction false} InsertPermutes(x: ScoredItem, s: seq<ScoredItem>)
    ensures multiset(Insert(x, s)) == multiset(s) + multiset{x}
  {
    if s != [] && Before(s[0], x) {
      InsertPermutes(x, s[1..]);
      assert s == [s[0]] + s[1..];
    }
  }

  /** Sorting only reorders: the result is a permutation of the input. */
  lemma {:induction false} SortPermutes(s: seq<ScoredItem>)
    ensures multiset(SortByScore(s)) == multiset(s)
  {
    if s != [] {
      SortPermutes(s[1..]);
      InsertPermutes(s[0], SortByScore(s[1..]));
      assert s == [s[0]] + s[1..];
    }
  }

  lemma {:induction false} InsertSorted(x: ScoredItem, s: seq<ScoredItem>)
    requires Sorted(s)
    ensures Sorted(Insert(x, s))
  {
    if s == [] {
    } else if Before(s[0], x) {
      var t := Insert(x, s[1..]);
      InsertSorted(x, s[1..]);
      InsertPermutes(x, s[1..]);
      BeforeAsymmetric(s[0], x);
      forall k | 0 <= k < |t|
        ensures !Before(t[k], s[0])
      {
        assert t[k] in multiset(t);
        if t[k] != x {
          assert t[k] in s[1..];
        }
      }
    } else {
      forall k | 0 <= k < |s|
        ensures !Before(s[k], x)
      {
        if k > 0 {
          NotBeforeTransitive(s[k], s[0], x);
        }
      }
    }
  }

  /** The sort leaves the items ordered by descending score, ties by name. */
  lemma {:induction false} SortSorts(s: seq<ScoredItem>)
    ensures Sorted(SortByScore(s))
  {
    if s != [] {
      SortSorts(s[1..]);
      InsertSorted(s[0], SortByScore(s[1..]));
    }
  }

  /** The items of s that the comparator cannot tell apart from k, in order. */
  function WithKey(s: seq<ScoredItem>, k: ScoredItem): seq<ScoredItem> {
    if s == [] then []
    else (if SameKey(s[0], k) then [s[0]] else []) + WithKey(s[1..], k)
  }

  lemma {:induction false} InsertWithKey(x: ScoredItem, s: seq<ScoredItem>, k: ScoredItem)
    ensures WithKey(Insert(x, s), k) == (if SameKey(x, k) then [x] else []) + WithKey(s, k)
  {
    if s != [] && Before(s[0], x) {
      InsertWithKey(x, s[1..], k);
      var t := Insert(x, s);
      assert t[0] == s[0] && t[1..] == Insert(x, s[1..]);
      var rest := WithKey(s[1..], k);
      if SameKey(s[0], k) {
        if SameKey(x, k) {
          StrLessIrreflexive(x.item.name);
          assert false;
        }
        assert WithKey(t, k) == [s[0]] + rest;
      } else {
        assert WithKey(t, k) == (if SameKey(x, k) then [x] else []) + rest;
      }
    } else {
      assert ([x] + s)[1..] == s;
    }
  }

  /** The sort is stable: items the comparator cannot tell apart keep their
      relative order. */
  lemma {:induction false} SortIsStable(s: seq<ScoredItem>, k: ScoredItem)
    ensures WithKey(SortByScore(s), k) == WithKey(s, k)
  {
    if s != [] {
      SortIsStable(s[1..], k);
      InsertWithKey(s[0], SortByScore(s[1..]), k);
    }
  }

  function ItemsOf(s: seq<ScoredItem>): seq<Item> {
    if s == [] then [] else [s[0].item] + ItemsOf(s[1..])
  }

  lemma {:induction false} ItemsOfInsert(x: ScoredItem, s: seq<ScoredItem>)
    ensures multiset(ItemsOf(Insert(x, s))) == multiset(ItemsOf(s)) + multiset{x.item}
  {
    if s != [] && Before(s[0], x) {
      ItemsOfInsert(x, s[1..]);
    }
  }

  /** Sorting keeps the same menu items. */
  lemma {:induction false} SortKeepsItems(s: seq<ScoredItem>)
    ensures multiset(ItemsOf(SortByScore(s))) == multiset(ItemsOf(s))
  {
    if s != [] {
      SortKeepsItems(s[1..]);
      ItemsOfInsert(s[0], SortByScore(s[1..]));
    }
  }

  lemma {:induction false} ItemsOfLength(s: seq<ScoredItem>)
    ensures |ItemsOf(s)| == |s| && forall i :: 0 <= i < |s| ==> ItemsOf(s)[i] == s[i].item
  {
    if s != [] {
      ItemsOfLength(s[1..]);
    }
  }

  /** The results for stored items s: the items in stored order up to the
      first negative score. */
  function Matches(s: seq<ScoredItem>): seq<Item> {
    if s == [] || s[0].score < 0 then [] else [s[0].item] + Matches(s[1..])
  }

  /** When no score is negative, every item is a result, in stored order. */
  lemma {:induction false} MatchesAllNonNegative(s: seq<ScoredItem>)
    requires forall i :: 0 <= i < |s| ==> s[i].score >= 0
    ensures Matches(s) == ItemsOf(s)
  {
    if s != [] {
      MatchesAllNonNegative(s[1..]);
    }
  }

  /** The results are a prefix of the stored items, all with a non-negative
      score, and they stop only at a negative score or at the end. */
  lemma {:induction false} MatchesAreLeadingNonNegative(s: seq<ScoredItem>)
    ensures |Matches(s)| <= |s|
    ensures forall i :: 0 <= i < |Matches(s)| ==> Matches(s)[i] == s[i].item && s[i].score >= 0
    ensures |Matches(s)| < |s| ==> s[|Matches(s)|].score < 0
  {
    if s != [] && s[0].score >= 0 {
      MatchesAreLeadingNonNegative(s[1..]);
    }
  }

  /** On sorted items the results are exactly the items with a non-negative
      score. */
  lemma SortedMatches(s: seq<ScoredItem>)
    requires Sorted(s)
    ensures forall i :: 0 <= i < |s| ==> (i < |Matches(s)| <==> s[i].score >= 0)
  {
    MatchesAreLeadingNonNegative(s);
    var n := |Matches(s)|;
    forall i | n < i < |s|
      ensures s[i].score < 0
    {
      assert !Before(s[i], s[n]);
    }
  }

  /** Every item rescored for a query. */
  function Rescore(s: seq<ScoredItem>, query: string, e: bool, qw: seq<string>): (r: seq<ScoredItem>)
    ensures |r| == |s|
  {
    seq(|s|, i requires 0 <= i < |s| =>
      s[i].(score := ScoreOf(s[i].item.alias, query, e, s[i].words, qw)))
  }

  /** The scored items NewSearch starts from, in the given order. */
  function Initial(items: seq<Item>, e: bool, normalize: string -> string): (r: seq<ScoredItem>)
    ensures |r| == |items|
  {
    seq(|items|, i requires 0 <= i < |items| =>
      ScoredItem(InitialScore(e), Words(normalize(items[i].name)), items[i]))
  }

  /** Before any query, the file menu (emptyQueryShowAll) shows every item and
      the command menu shows none. */
  lemma InitialResults(items: seq<Item>, e: bool, normalize: string -> string)
    ensures var r := Matches(SortByScore(Initial(items, e, normalize)));
            (e ==> |r| == |items|) && (!e ==> r == [])
  {
    var start := Initial(items, e, normalize);
    var s := SortByScore(start);
    SortPermutes(start);
    MatchesAreLeadingNonNegative(s);
    assert |s| == |multiset(s)| == |multiset(start)| == |items|;
    forall k | 0 <= k < |s|
      ensures s[k].score == InitialScore(e)
    {
      assert s[k] in multiset(start);
    }
  }

  lemma SameItems(s: seq<ScoredItem>, t: seq<ScoredItem>)
    requires |s| == |t| && forall i :: 0 <= i < |s| ==> s[i].item == t[i].item
    ensures ItemsOf(s) == ItemsOf(t)
  {
    ItemsOfLength(s);
    ItemsOfLength(t);
  }

  /** Rescoring for a query and sorting again: the items end up sorted, the
      same items are kept, and each one carries its score for the query. */
  lemma RescoreThenSort(s: seq<ScoredItem>, q: string, e: bool, qw: seq<string>, normalize: string -> string)
    requires forall si :: si in s ==> si.words == Words(normalize(si.item.name))
    ensures Sorted(SortByScore(Rescore(s, q, e, qw)))
    ensures multiset(ItemsOf(SortByScore(Rescore(s, q, e, qw)))) == multiset(ItemsOf(s))
    ensures forall si :: si in SortByScore(Rescore(s, q, e, qw)) ==>
              && si.words == Words(normalize(si.item.name))
              && si.score == ScoreOf(si.item.alias, q, e, si.words, qw)
  {
    var r := Rescore(s, q, e, qw);
    var t := SortByScore(r);
    SameItems(r, s);
    SortSorts(r);
    SortPermutes(r);
    SortKeepsItems(r);
    forall si | si in t
      ensures si.words == Words(normalize(si.item.name))
      ensures si.score == ScoreOf(si.item.alias, q, e, si.words, qw)
    {
      assert si in multiset(r);
      var k :| 0 <= k < |r| && r[k] == si;
      assert s[k] in s;
    }
  }

  /** The sorted initial items: sorted, the given items, each with its name
      words and the score of the empty query. */
  lemma InitialThenSort(items: seq<Item>, e: bool, normalize: string -> string)
    ensures Sorted(SortByScore(Initial(items, e, normalize)))
    ensures multiset(ItemsOf(SortByScore(Initial(items, e, normalize)))) == multiset(items)
    ensures forall si :: si in SortByScore(Initial(items, e, normalize)) ==>
              && si.words == Words(normalize(si.item.name))
              && si.score == InitialScore(e)
              && si.score == ScoreOf(si.item.alias, [], e, si.words, [])
  {
    var r := Initial(items, e, normalize);
    var t := SortByScore(r);
    SortSorts(r);
    SortPermutes(r);
    SortKeepsItems(r);
    ItemsOfLength(r);
    assert ItemsOf(r) == items;
    forall si | si in t
      ensures si.words == Words(normalize(si.item.name)) && si.score == InitialScore(e)
      ensures si.score == ScoreOf(si.item.alias, [], e, si.words, [])
    {
      assert si in multiset(r);
      EmptyQueryScore(si.item.alias, e, si.words);
    }
  }

  /** A non-negative score at k adds the item at k to the results. */
  lemma MatchesStep(s: seq<ScoredItem>, k: nat)
    requires k < |s| && s[k].score >= 0
    ensures Matches(s[k..]) == [s[k].item] + Matches(s[k + 1..])
  {
    assert s[k..][1..] == s[k + 1..];
  }

  /** The results end at the first negative score. */
  lemma MatchesStop(s: seq<ScoredItem>, k: nat)
    requires k <= |s| && (k == |s| || s[k].score < 0)
    ensures Matches(s[k..]) == []
  {
  }

  /** A search over menu items. `normalize` stands for the case-folding and
      NFC normalization, which are not part of this model. */
  class Search {
    var scoredItems: seq<ScoredItem>
    var query: string
    var queryWords: seq<string>
    const emptyQueryShowAll: bool
    const normalize: string -> string

    /** An item is up to date: its words are those of its normalized name and
        its score is its score for the current query. */
    ghost predicate UpToDate(si: ScoredItem)
      reads this
    {
      && si.words == Words(normalize(si.item.name))
      && si.score == ScoreOf(si.item.alias, query, emptyQueryShowAll, si.words, queryWords)
    }

    ghost predicate Valid()
      reads this
    {
      && Sorted(scoredItems)
      && (forall si :: si in scoredItems ==> UpToDate(si))
      && normalize([]) == []
      && queryWords == Words(normalize(query))
    }

    /** NewSearch: every item gets its name words and the initial score, then
        the items are sorted (by name, since the scores are equal). */
    constructor (items: seq<Item>, emptyQueryShowAll: bool, normalize: string -> string)
      requires normalize([]) == []
      ensures Valid()
      ensures this.emptyQueryShowAll == emptyQueryShowAll && this.normalize == normalize
      ensures query == [] && queryWords == []
      ensures scoredItems == SortByScore(Initial(items, emptyQueryShowAll, normalize))
      ensures multiset(ItemsOf(scoredItems)) == multiset(items)
      ensures forall si :: si in scoredItems ==> si.score == InitialScore(emptyQueryShowAll)
    {
      var initialScore := -1;
      if emptyQueryShowAll {
        initialScore := 0;
      }
      this.emptyQueryShowAll := emptyQueryShowAll;
      this.normalize := normalize;
      scoredItems := [];
      query := [];
      queryWords := [];
      new;
      for k := 0 to |items|
        invariant |scoredItems| == k
        invariant forall m :: 0 <= m < k ==>
          scoredItems[m] == ScoredItem(initialScore, Words(normalize(items[m].name)), items[m])
        invariant query == [] && queryWords == []
        invariant this.emptyQueryShowAll == emptyQueryShowAll && this.normalize == normalize
      {
        var words := SplitWords(normalize(items[k].name));
        scoredItems := scoredItems + [ScoredItem(initialScore, words, items[k])];
      }
      assert scoredItems == Initial(items, emptyQueryShowAll, normalize);
      InitialThenSort(items, emptyQueryShowAll, normalize);
      SortItemsByScore();
    }

    /** Query returns the current query. */
    function Query(): string
      reads this
    {
      query
    }

    /** sortItemsByScore: a stable sort by descending score, ties by name. */
    method SortItemsByScore()
      modifies this
      ensures scoredItems == SortByScore(old(scoredItems))
      ensures Sorted(scoredItems) && multiset(scoredItems) == multiset(old(scoredItems))
      ensures query == old(query) && queryWords == old(queryWords)
    {
      SortSorts(scoredItems);
      SortPermutes(scoredItems);
      scoredItems := SortByScore(scoredItems);
    }

    /** calculateScore: the alias check, then the greedy matching loop. */
    method CalculateScore(alias: string, candidateWords: seq<string>, queryWords: seq<string>)
        returns (score: int)
      ensures score == ScoreOf(alias, query, emptyQueryShowAll, candidateWords, queryWords)
    {
      if alias != [] && alias == query {
        return MaxScore;
      }
      var i, j := 0, 0;
      score := -1;
      if emptyQueryShowAll {
        score := 0;
      }
      while i < |candidateWords| && j < |queryWords|
        invariant 0 <= i <= |candidateWords| && 0 <= j <= |queryWords|
        invariant Greedy(candidateWords, queryWords, i, j, score)
               == Greedy(candidateWords, queryWords, 0, 0, InitialScore(emptyQueryShowAll))
        decreases |candidateWords| - i
      {
        var cw, qw := candidateWords[i], queryWords[j];
        if |qw| <= |cw| && cw[..|qw|] == qw {
          var points := Utf8Len(qw);
          if i == 0 && j == 0 {
            points := points * 2;
          }
          score := score + points;
          j := j + 1;
        }
        i := i + 1;
      }
      if j < |queryWords| {
        return -1;
      }
      if score >= MaxScore {
        score := MaxScore - 1;
      }
    }

    /** setQuery: stores the query and its words, rescores every item and
        sorts them again. */
    method SetQuery(q: string)
      requires Valid()
      modifies this
      ensures Valid()
      ensures query == q && queryWords == Words(normalize(q))
      ensures scoredItems == SortByScore(Rescore(old(scoredItems), q, emptyQueryShowAll, queryWords))
      ensures multiset(ItemsOf(scoredItems)) == multiset(ItemsOf(old(scoredItems)))
    {
      query := q;
      queryWords := SplitWords(normalize(q));
      ghost var before := scoredItems;
      ghost var rescored := Rescore(before, q, emptyQueryShowAll, queryWords);
      for i := 0 to |scoredItems|
        invariant |scoredItems| == |before|
        invariant query == q && queryWords == Words(normalize(q))
        invariant forall k :: 0 <= k < i ==> scoredItems[k] == rescored[k]
        invariant forall k :: i <= k < |scoredItems| ==> scoredItems[k] == before[k]
      {
        var alias := scoredItems[i].item.alias;
        var candidateWords := scoredItems[i].words;
        var score := CalculateScore(alias, candidateWords, queryWords);
        scoredItems := scoredItems[i := scoredItems[i].(score := score)];
      }
      assert scoredItems == rescored;
      RescoreThenSort(before, q, emptyQueryShowAll, queryWords, normalize);
      SortItemsByScore();
    }

    /** AppendRuneToQuery: the query becomes the old query followed by r. */
    method AppendRuneToQuery(r: char)
      requires Valid()
      modifies this
      ensures Valid()
      ensures query == old(query) + [r] && queryWords == Words(normalize(query))
      ensures scoredItems == SortByScore(Rescore(old(scoredItems), query, emptyQueryShowAll, queryWords))
      ensures multiset(ItemsOf(scoredItems)) == multiset(ItemsOf(old(scoredItems)))
    {
      var newQuery := query + [r];
      SetQuery(newQuery);
    }

    /** DeleteRuneFromQuery: drops the last rune of the query; an empty query
        is left as it is, and so is everything else then. */
    method DeleteRuneFromQuery()
      requires Valid()
      modifies this
      ensures Valid()
      ensures old(query) == [] ==> query == [] && scoredItems == old(scoredItems) && queryWords == old(queryWords)
      ensures old(query) != [] ==> query == old(query)[..|old(query)| - 1]
      ensures old(query) != [] ==> queryWords == Words(normalize(query))
      ensures old(query) != [] ==>
        scoredItems == SortByScore(Rescore(old(scoredItems), query, emptyQueryShowAll, queryWords))
      ensures multiset(ItemsOf(scoredItems)) == multiset(ItemsOf(old(scoredItems)))
    {
      if |query| == 0 {
        return;
      }
      var newQuery := query[..|query| - 1];
      SetQuery(newQuery);
    }

    /** The empty query, whether fresh or reached by deleting runes, gives
        every item the initial score: the file menu shows every item and the
        command menu shows none. */
    lemma EmptyQueryShowsInitial()
      requires Valid() && query == []
      ensures queryWords == []
      ensures forall si :: si in scoredItems ==> si.score == InitialScore(emptyQueryShowAll)
      ensures emptyQueryShowAll ==> Matches(scoredItems) == ItemsOf(scoredItems)
      ensures !emptyQueryShowAll ==> Matches(scoredItems) == []
    {
      assert queryWords == Words([]) == [];
      forall si | si in scoredItems
        ensures si.score == InitialScore(emptyQueryShowAll)
      {
        EmptyQueryScore(si.item.alias, emptyQueryShowAll, si.words);
      }
      if emptyQueryShowAll {
        forall i | 0 <= i < |scoredItems|
          ensures scoredItems[i].score >= 0
        {
          assert scoredItems[i] in scoredItems;
        }
        MatchesAllNonNegative(scoredItems);
      } else if scoredItems != [] {
        assert scoredItems[0] in scoredItems;
      }
    }

    /** Results: the items in stored order up to the first negative score. */
    method Results() returns (results: seq<Item>)
      ensures results == Matches(scoredItems)
    {
      var items := scoredItems;
      results := [];
      var k := 0;
      while k < |items|
        invariant 0 <= k <= |items|
        invariant Matches(items) == results + Matches(items[k..])
      {
        var si := items[k];
        if si.score < 0 {
          MatchesStop(items, k);
          break;
        }
        MatchesStep(items, k);
        results := results + [si.item];
        k := k + 1;
      }
      if k == |items| {
        MatchesStop(items, k);
      }
    }
  }
}
