/** The query tool: it builds the index over the store as loaded, sorts the store, and then asks the
    index. */
module QueryTool {
  import opened Chars
  import opened LogEntry
  import opened VectorClock
  import opened CausalSort
  import opened Index

  function Messages(es: seq<Entry>): seq<string> {
    if es == [] then [] else Messages(es[..|es| - 1]) + [es[|es| - 1].message]
  }

  /** At every position both orders hold messages with the same terms. */
  ghost predicate SameTerms(built: seq<string>, now: seq<string>)
    requires |built| == |now|
  {
    forall x, t :: 0 <= x < |built| ==> (Contains(built[x], t) <==> Contains(now[x], t))
  }

  // ---------------------------------------------------------------- a term as a query

  lemma {:induction false} WholeWord(s: string, d: string)
    requires forall i :: 0 <= i < |s| ==> s[i] !in d
    ensures WordLength(s, d) == |s| && (s != "" ==> Words(s, d) == [s])
    decreases |s|
  {
    if s != "" {
      WholeWord(s[1..], d);
      assert s[..|s|] == s && s[|s|..] == "";
    }
  }

  /** A term of a message, asked for, is one word with itself as its term. */
  lemma TermAsQuery(message: string, t: string)
    requires Contains(message, t)
    ensures QueryWords(t) == [t] && Term(t) == t
  {
    hide Words, Normalized;
    var words := Words(message, MESSAGE_DELIMITERS);
    var k :| 0 <= k < |words| && Term(words[k]) == t;
    NormalizedIs(words[k], MAX_TERM_LEN - 1);
    forall i | 0 <= i < |t|
      ensures t[i] !in " "
    {
      assert IsAlnum(t[i]);
    }
    WholeWord(t, " ");
  }

  // ---------------------------------------------------------------- an index of another order

  lemma MatchesSame(a: string, b: string, words: seq<string>, isAnd: bool)
    requires forall t :: Contains(a, t) <==> Contains(b, t)
    ensures Matches(a, words, isAnd) <==> Matches(b, words, isAnd)
  {
    hide Contains, Term;
  }

  lemma SameScan(built: seq<string>, now: seq<string>, words: seq<string>, isAnd: bool)
    requires |built| == |now| && SameTerms(built, now)
    ensures Scan(built, words, isAnd) == Scan(now, words, isAnd)
  {
    hide Matches, Scan, Contains;
    ScanIs(built, words, isAnd);
    ScanIs(now, words, isAnd);
    forall x: nat | x < |built|
      ensures Matches(built[x], words, isAnd) <==> Matches(now[x], words, isAnd)
    {
      MatchesSame(built[x], now[x], words, isAnd);
    }
    IncreasingUnique(Scan(built, words, isAnd), Scan(now, words, isAnd));
  }

  /** If the answers to the query `t` agree, both orders have `t` at the same positions. */
  lemma TermTells(built: seq<string>, now: seq<string>, x: nat, t: string)
    requires |built| == |now| && x < |built| && (Contains(built[x], t) || Contains(now[x], t))
    requires forall maxCount :: Answer(built, t, true, maxCount) == Answer(now, t, true, maxCount)
    ensures Contains(built[x], t) && Contains(now[x], t)
  {
    if Contains(built[x], t) {
      TermAsQuery(built[x], t);
    } else {
      TermAsQuery(now[x], t);
    }
    hide Contains, Matches, Scan, Term, QueryWords;
    var p, q := Scan(built, [t], true), Scan(now, [t], true);
    assert Answer(built, t, true, |p| + |q| + 1) == Answer(now, t, true, |p| + |q| + 1);
    assert p == q;
    ScanIs(built, [t], true);
    ScanIs(now, [t], true);
    MatchesOne(built[x], t, true);
    MatchesOne(now[x], t, true);
  }

  /** An index over one order answers every query rightly for another order exactly when at every
      position the two messages have the same terms. */
  lemma ReorderedIndex(built: seq<string>, now: seq<string>)
    requires |built| == |now|
    ensures (forall query, isAnd, maxCount ::
              Answer(built, query, isAnd, maxCount) == Answer(now, query, isAnd, maxCount)) <==>
      SameTerms(built, now)
  {
    hide Contains, Scan, QueryWords;
    if SameTerms(built, now) {
      forall query, isAnd, maxCount
        ensures Answer(built, query, isAnd, maxCount) == Answer(now, query, isAnd, maxCount)
      {
        SameScan(built, now, QueryWords(query), isAnd);
      }
    } else {
      hide Answer;
      var x, t :| 0 <= x < |built| && !(Contains(built[x], t) <==> Contains(now[x], t));
      if forall query, isAnd, maxCount ::
          Answer(built, query, isAnd, maxCount) == Answer(now, query, isAnd, maxCount) {
        TermTells(built, now, x, t);
      }
    }
  }

  // ---------------------------------------------------------------- two entries

  lemma OneWord(c: char)
    requires c in {'a', 'b'}
    ensures Words([c], MESSAGE_DELIMITERS) == [[c]] && Term([c]) == [c]
  {
    assert c !in MESSAGE_DELIMITERS;
    assert WordLength([c], MESSAGE_DELIMITERS) == 1 by { assert [c][1..] == ""; }
    assert [c][..1] == [c] && [c][1..] == "";
    assert Normalized([c], MAX_TERM_LEN - 1) == [ToLower(c)] + Normalized("", MAX_TERM_LEN - 2);
    assert ToLower(c) == c && [c] + "" == [c];
  }

  lemma ScanTwo(a: string, b: string, words: seq<string>, isAnd: bool)
    ensures Scan([a, b], words, isAnd)
      == (if Matches(a, words, isAnd) then [0] else []) + (if Matches(b, words, isAnd) then [1] else [])
  {
    hide Matches;
    assert [a, b][..1] == [a] && [a][..0] == [];
    assert Scan([a], words, isAnd) == [] + (if Matches(a, words, isAnd) then [0] else []);
  }

  lemma MessagesTwo(a: Entry, b: Entry)
    ensures Messages([a, b]) == [a.message, b.message]
  {
    assert [a, b][..1] == [a] && [a][..0] == [];
    assert Messages([a]) == [] + [a.message];
  }

  lemma AskForA(isAnd: bool)
    ensures Answer(["a", "b"], "a", isAnd, 1) == [0] && Answer(["b", "a"], "a", isAnd, 1) == [1]
    ensures !Contains("b", "a")
  {
    OneWord('a');
    OneWord('b');
    MatchesOne("a", "a", isAnd);
    MatchesOne("b", "a", isAnd);
    assert Contains("a", "a") by { assert Term(["a"][0]) == "a"; }
    assert !Contains("b", "a");
    TermAsQuery("a", "a");
    hide Matches, Contains, Term, Scan, QueryWords;
    ScanTwo("a", "b", ["a"], isAnd);
    ScanTwo("b", "a", ["a"], isAnd);
  }

  /** With one event before the other, a sort has no choice. */
  lemma SortOfTwo(a: Entry, b: Entry, t: seq<Entry>)
    requires Lt(b.vc, a.vc) && IsSortOf(t, [a, b])
    ensures t == [b, a]
  {
    assert multiset(t) == multiset{a, b};
    assert |t| == |multiset(t)| == 2;
    assert t == [t[0], t[1]];
    assert t[0] in multiset(t) && t[1] in multiset(t) && a in multiset(t) && b in multiset(t);
    assert CompareCausal(a, b) == 1;
    assert CompareCausal(t[0], t[0 + 1]) <= 0;
  }

  /** Two entries loaded in the wrong order: the index is built, every causal sort swaps them, and
      asked for "a" the index names position 0, where a message without it now stands. */
  lemma SortedAfterIndexing(t: seq<Entry>, isAnd: bool)
    requires IsSortOf(t, [Entry("n", [2], 0, 1, "a"), Entry("n", [1], 0, 1, "b")])
    ensures var es := [Entry("n", [2], 0, 1, "a"), Entry("n", [1], 0, 1, "b")];
      && |t| == 2 && !Contains(t[0].message, "a")
      && Answer(Messages(es), "a", isAnd, 1) == [0] && Answer(Messages(t), "a", isAnd, 1) == [1]
  {
    hide Contains, Answer, Messages, IsSortOf, Lt;
    var a, b := Entry("n", [2], 0, 1, "a"), Entry("n", [1], 0, 1, "b");
    OneBeforeTwo();
    SortOfTwo(a, b, t);
    MessagesTwo(a, b);
    MessagesTwo(b, a);
    AskForA(isAnd);
  }

  lemma OneBeforeTwo()
    ensures Lt([1], [2])
  {
    var one, two: Clock := [1], [2];
    assert two[0] > At(one, 0);
  }
}
