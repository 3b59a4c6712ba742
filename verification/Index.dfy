/** The inverted index over the messages of the store, and AND/OR queries by merging posting
    lists, against a plain scan. */
module Index {
  import opened Chars

  const MAX_TERM_LEN := 64
  const QUERY_LEN := 255
  const MESSAGE_DELIMITERS := " \t\r\n,.!?:;()[]{}--_\"'"

  // ---------------------------------------------------------------- words

  /** The letters and digits of a word in lower case, at most `room` of them. */
  function Normalized(s: string, room: nat): string
    decreases |s|
  {
    if s == "" || room == 0 then ""
    else if IsAlnum(s[0]) then [ToLower(s[0])] + Normalized(s[1..], room - 1)
    else Normalized(s[1..], room)
  }

  function Term(s: string): string {
    Normalized(s, MAX_TERM_LEN - 1)
  }

  /** A term is at most 63 lower-case letters and digits, and is its own term. */
  lemma {:induction false} NormalizedIs(s: string, room: nat)
    ensures |Normalized(s, room)| <= room
    ensures forall i :: 0 <= i < |Normalized(s, room)| ==>
      var c := Normalized(s, room)[i]; IsAlnum(c) && ToLower(c) == c
    ensures Normalized(Normalized(s, room), room) == Normalized(s, room)
    decreases |s|
  {
    if s != "" && room > 0 {
      if IsAlnum(s[0]) {
        NormalizedIs(s[1..], room - 1);
        assert Normalized(s, room)[1..] == Normalized(s[1..], room - 1);
      } else {
        NormalizedIs(s[1..], room);
      }
    }
  }

  /** What becomes of one character, by its code. */
  lemma NormalizedChar(c: char, room: nat)
    requires room > 0
    ensures Normalized([c], room) ==
      if 'A' <= c <= 'Z' then [(c as int + 32) as char]
      else if 'a' <= c <= 'z' || '0' <= c <= '9' then [c] else ""
  {
    assert [c][1..] == "";
    assert Normalized("", room - 1) == "";
  }

  /** Characters are treated one after the other until there is no room. */
  lemma {:induction false} NormalizedConcat(a: string, b: string, room: nat)
    ensures |Normalized(a, room)| <= room
    ensures Normalized(a + b, room) == Normalized(a, room) + Normalized(b, room - |Normalized(a, room)|)
    decreases |a|
  {
    NormalizedIs(a, room);
    if a == "" {
      assert a + b == b;
    } else {
      assert (a + b)[1..] == a[1..] + b;
      if room > 0 {
        NormalizedConcat(a[1..], b, if IsAlnum(a[0]) then room - 1 else room);
      }
    }
  }

  method NormalizeTerm(src: string) returns (dst: string)
    ensures dst == Term(src) && |dst| <= 63
    ensures forall i :: 0 <= i < |dst| ==> IsAlnum(dst[i]) && ToLower(dst[i]) == dst[i]
  {
    dst := "";
    var i := 0;
    while i < |src| && |dst| < MAX_TERM_LEN - 1
      invariant 0 <= i <= |src| && |dst| <= MAX_TERM_LEN - 1
      invariant Term(src) == dst + Normalized(src[i..], MAX_TERM_LEN - 1 - |dst|)
    {
      assert src[i..][1..] == src[i + 1..];
      if IsAlnum(src[i]) {
        dst := dst + [ToLower(src[i])];
      }
      i := i + 1;
    }
    NormalizedIs(src, MAX_TERM_LEN - 1);
  }

  function WordLength(s: string, delimiters: string): (n: nat)
    ensures n <= |s|
    ensures s != "" && s[0] !in delimiters ==> n > 0
  {
    if s == "" || s[0] in delimiters then 0 else 1 + WordLength(s[1..], delimiters)
  }

  /** The words strtok yields. */
  function Words(s: string, delimiters: string): seq<string>
    decreases |s|
  {
    if s == "" then []
    else if s[0] in delimiters then Words(s[1..], delimiters)
    else
      var n := WordLength(s, delimiters);
      [s[..n]] + Words(s[n..], delimiters)
  }

  /** `w` stands in the text at `i`, between two delimiters or the ends of the text. */
  ghost predicate WordAt(s: string, d: string, i: int, w: string) {
    var j := i + |w|;
    && 0 <= i < j <= |s| && s[i..j] == w && (forall k :: i <= k < j ==> s[k] !in d)
    && (i == 0 || s[i - 1] in d) && (j == |s| || s[j] in d)
  }

  /** The words stand at these positions, in this order, and no others do. */
  ghost predicate StandAt(s: string, d: string, words: seq<string>, at: seq<nat>) {
    && |at| == |words|
    && (forall k :: 0 <= k < |at| ==> WordAt(s, d, at[k], words[k]))
    && (forall k, l :: 0 <= k < l < |at| ==> at[k] < at[l])
    && (forall i, w :: WordAt(s, d, i, w) ==> IsOneOf(words, at, i, w))
  }

  ghost predicate IsOneOf(words: seq<string>, at: seq<nat>, i: int, w: string)
    requires |at| == |words|
  {
    exists k :: 0 <= k < |at| && at[k] == i && words[k] == w
  }

  function Shifted(at: seq<nat>, n: nat): seq<nat> {
    seq(|at|, k requires 0 <= k < |at| => at[k] + n)
  }

  /** Dropping the text before a delimiter, or through one, keeps the words behind it. */
  lemma WordShifts(s: string, d: string, n: nat, i: nat, w: string)
    requires n <= |s| && (n < |s| ==> s[n] in d || (n > 0 && s[n - 1] in d))
    ensures WordAt(s[n..], d, i, w) <==> WordAt(s, d, i + n, w)
  {
    var t, j := s[n..], i + |w|;
    if j + n <= |s| {
      assert t[i..j] == s[i + n..j + n];
      assert forall k :: i <= k < j ==> t[k] == s[k + n];
      assert forall k :: i + n <= k < j + n ==> s[k] == t[k - n];
    }
  }

  lemma {:induction false} WordLengthStops(s: string, d: string)
    ensures forall k :: 0 <= k < WordLength(s, d) ==> s[k] !in d
    ensures WordLength(s, d) == |s| || s[WordLength(s, d)] in d
    decreases |s|
  {
    if s != "" && s[0] !in d {
      WordLengthStops(s[1..], d);
    }
  }

  /** What strtok yields: every maximal run of characters that are no delimiters, once, in order. */
  lemma {:induction false} WordsAre(s: string, d: string) returns (at: seq<nat>)
    ensures StandAt(s, d, Words(s, d), at)
    decreases |s|
  {
    hide StandAt;
    if s == "" {
      at := [];
      NoWords(d);
    } else if s[0] in d {
      var rest := WordsAre(s[1..], d);
      at := Shifted(rest, 1);
      ShiftStands(s, d, Words(s[1..], d), rest);
    } else {
      var n := WordLength(s, d);
      WordLengthStops(s, d);
      var rest := WordsAre(s[n..], d);
      at := [0] + Shifted(rest, n);
      FirstStands(s, d, n, Words(s[n..], d), rest);
    }
  }

  lemma NoWords(d: string)
    ensures StandAt("", d, [], [])
  {
  }

  lemma WordInside(s: string, d: string, i: int, w: string)
    requires WordAt(s, d, i, w)
    ensures 0 <= i < i + |w| <= |s| && s[i] !in d && (i > 0 ==> s[i - 1] in d)
    ensures forall k :: i <= k < i + |w| ==> s[k] !in d
    ensures i + |w| < |s| ==> s[i + |w|] in d
    ensures s[i..i + |w|] == w
  {
  }

  lemma ShiftStands(s: string, d: string, words: seq<string>, rest: seq<nat>)
    requires s != "" && s[0] in d && StandAt(s[1..], d, words, rest)
    ensures StandAt(s, d, words, Shifted(rest, 1))
  {
    hide WordAt, IsOneOf;
    var at := Shifted(rest, 1);
    forall k | 0 <= k < |at|
      ensures WordAt(s, d, at[k], words[k])
    {
      WordShifts(s, d, 1, rest[k], words[k]);
    }
    forall i, w | WordAt(s, d, i, w)
      ensures IsOneOf(words, at, i, w)
    {
      WordInside(s, d, i, w);
      WordShifts(s, d, 1, i - 1, w);
      StandsThere(s[1..], d, words, rest, i - 1, w);
      OneShifts(words, rest, 1, i - 1, w);
    }
  }

  lemma OneShifts(words: seq<string>, at: seq<nat>, n: nat, i: int, w: string)
    requires |at| == |words| && IsOneOf(words, at, i, w)
    ensures IsOneOf(words, Shifted(at, n), i + n, w)
  {
    var k :| 0 <= k < |at| && at[k] == i && words[k] == w;
    assert Shifted(at, n)[k] == i + n;
  }

  lemma FirstStands(s: string, d: string, n: nat, words: seq<string>, rest: seq<nat>)
    requires 0 < n <= |s| && (forall k :: 0 <= k < n ==> s[k] !in d) && (n == |s| || s[n] in d)
    requires StandAt(s[n..], d, words, rest)
    ensures StandAt(s, d, [s[..n]] + words, [0] + Shifted(rest, n))
  {
    assert WordAt(s, d, 0, s[..n]);
    hide WordAt;
    var all, at := [s[..n]] + words, [0] + Shifted(rest, n);
    forall k | 0 <= k < |at|
      ensures WordAt(s, d, at[k], all[k])
    {
      if k > 0 {
        WordShifts(s, d, n, rest[k - 1], words[k - 1]);
      }
    }
    forall i, w | WordAt(s, d, i, w)
      ensures IsOneOf(all, at, i, w)
    {
      NextIsOneOf(s, d, n, words, rest, i, w);
    }
  }

  lemma NextIsOneOf(s: string, d: string, n: nat, words: seq<string>, rest: seq<nat>, i: int, w: string)
    requires |rest| == |words| && 0 < n <= |s| && (forall k :: 0 <= k < n ==> s[k] !in d) && (n == |s| || s[n] in d)
    requires StandAt(s[n..], d, words, rest) && WordAt(s, d, i, w)
    ensures IsOneOf([s[..n]] + words, [0] + Shifted(rest, n), i, w)
  {
    hide StandAt, WordAt, IsOneOf;
    WordInside(s, d, i, w);
    if i < n {
      FirstIsWhole(s, d, n, i, w);
      OneIsFirst(words, rest, n, w);
    } else {
      WordShifts(s, d, n, i - n, w);
      StandsThere(s[n..], d, words, rest, i - n, w);
      OneMovesOn(words, rest, n, i - n, s[..n], w);
    }
  }

  lemma StandsThere(s: string, d: string, words: seq<string>, at: seq<nat>, i: int, w: string)
    requires StandAt(s, d, words, at) && WordAt(s, d, i, w)
    ensures IsOneOf(words, at, i, w)
  {
  }

  lemma OneIsFirst(words: seq<string>, at: seq<nat>, n: nat, w: string)
    requires |at| == |words|
    ensures IsOneOf([w] + words, [0] + Shifted(at, n), 0, w)
  {
    assert ([0] + Shifted(at, n))[0] == 0 && ([w] + words)[0] == w;
  }

  lemma OneMovesOn(words: seq<string>, at: seq<nat>, n: nat, i: int, first: string, w: string)
    requires |at| == |words| && IsOneOf(words, at, i, w)
    ensures IsOneOf([first] + words, [0] + Shifted(at, n), i + n, w)
  {
    var k :| 0 <= k < |at| && at[k] == i && words[k] == w;
    assert ([0] + Shifted(at, n))[k + 1] == i + n && ([first] + words)[k + 1] == w;
  }

  lemma FirstIsWhole(s: string, d: string, n: nat, i: nat, w: string)
    requires 0 < n <= |s| && (forall k :: 0 <= k < n ==> s[k] !in d) && (n == |s| || s[n] in d)
    requires WordAt(s, d, i, w) && i < n
    ensures i == 0 && w == s[..n]
  {
    WordInside(s, d, i, w);
    assert s[i..i + |w|] == s[..n];
  }

  /** A string is one of the words exactly when it stands between delimiters. */
  lemma WordIn(s: string, d: string, w: string)
    ensures w in Words(s, d) <==> exists i :: WordAt(s, d, i, w)
  {
    hide WordAt, Words;
    var words := Words(s, d);
    var at := WordsAre(s, d);
    if w in words {
      var k :| 0 <= k < |words| && words[k] == w;
      assert WordAt(s, d, at[k], words[k]);
    }
    if i :| WordAt(s, d, i, w) {
      assert IsOneOf(words, at, i, w);
    }
  }

  /** The characters that end a word of a message. */
  lemma MessageDelimiters(c: char)
    ensures c in MESSAGE_DELIMITERS <==>
      c in {' ', '\t', '\r', '\n', ',', '.', '!', '?', ':', ';', '(', ')', '[', ']', '{', '}', '-', '_', '"', '\''}
  {
  }

  /** `t` is a term of one of the words. */
  ghost predicate TermOf(words: seq<string>, t: string) {
    t != "" && exists k :: 0 <= k < |words| && Term(words[k]) == t
  }

  ghost predicate Contains(message: string, t: string) {
    TermOf(Words(message, MESSAGE_DELIMITERS), t)
  }

  /** A message contains a term exactly when one of its words, by position, has it. */
  lemma ContainsIs(message: string, t: string)
    ensures Contains(message, t) <==>
      t != "" && exists i, w :: WordAt(message, MESSAGE_DELIMITERS, i, w) && Term(w) == t
  {
    hide WordAt, Words, Term;
    var words := Words(message, MESSAGE_DELIMITERS);
    if Contains(message, t) {
      var k :| 0 <= k < |words| && Term(words[k]) == t;
      WordIn(message, MESSAGE_DELIMITERS, words[k]);
    }
    if t != "" {
      forall i, w | WordAt(message, MESSAGE_DELIMITERS, i, w) && Term(w) == t
        ensures Contains(message, t)
      {
        WordIn(message, MESSAGE_DELIMITERS, w);
      }
    }
  }

  // ---------------------------------------------------------------- index

  datatype Posting = Posting(term: string, entries: seq<nat>)

  /** The entries that contain the term, in order. */
  ghost function Occurrences(messages: seq<string>, t: string): seq<nat> {
    if messages == [] then []
    else
      var n := |messages| - 1;
      Occurrences(messages[..n], t) + (if Contains(messages[n], t) then [n] else [])
  }

  ghost predicate Increasing(s: seq<nat>) {
    forall i, j :: 0 <= i < j < |s| ==> s[i] < s[j]
  }

  lemma {:induction false} OccurrencesAre(messages: seq<string>, t: string)
    ensures Increasing(Occurrences(messages, t))
    ensures forall x :: x in Occurrences(messages, t) <==> 0 <= x < |messages| && Contains(messages[x], t)
    decreases |messages|
  {
    hide Contains;
    if messages != [] {
      var n := |messages| - 1;
      OccurrencesAre(messages[..n], t);
      hide Increasing;
      IncreasingSnoc(Occurrences(messages[..n], t), n);
      assert forall x :: 0 <= x < n ==> messages[..n][x] == messages[x];
    }
  }

  lemma HeadIn(s: seq<nat>)
    ensures s != [] ==> exists x :: x in s
  {
    if s != [] {
      assert s[0] in s;
    }
  }

  /** Appending a larger number, or nothing. */
  lemma IncreasingSnoc(o: seq<nat>, n: nat)
    requires Increasing(o) && forall x :: x in o ==> x < n
    ensures Increasing(o + [n]) && Increasing(o + [])
    ensures forall x :: x in o + [n] <==> x in o || x == n
    ensures o + [] == o
  {
    forall k | 0 <= k < |o|
      ensures o[k] < n
    {
      assert o[k] in o;
    }
  }

  ghost predicate Distinct(dict: seq<Posting>) {
    forall c, d :: 0 <= c < d < |dict| ==> dict[c].term != dict[d].term
  }

  ghost predicate Lists(dict: seq<Posting>, t: string) {
    exists d :: 0 <= d < |dict| && dict[d].term == t
  }

  /** The index was built over exactly these messages in this order. */
  ghost predicate IndexOf(dict: seq<Posting>, messages: seq<string>) {
    && Distinct(dict) && !Lists(dict, "")
    && (forall d :: 0 <= d < |dict| ==> dict[d].entries == Occurrences(messages, dict[d].term))
    && (forall i, t :: 0 <= i < |messages| && Contains(messages[i], t) ==> Lists(dict, t))
  }

  /** While message `i` is being indexed and the first words of it have been seen. */
  ghost predicate Indexing(dict: seq<Posting>, messages: seq<string>, i: nat, seen: seq<string>)
    requires i < |messages|
  {
    && Distinct(dict) && !Lists(dict, "")
    && (forall d :: 0 <= d < |dict| ==>
          dict[d].entries == Occurrences(messages[..i], dict[d].term) + (if TermOf(seen, dict[d].term) then [i] else []))
    && (forall k, t :: 0 <= k < i && Contains(messages[k], t) ==> Lists(dict, t))
    && (forall t :: TermOf(seen, t) ==> Lists(dict, t))
  }

  lemma IndexingStarts(dict: seq<Posting>, messages: seq<string>, i: nat)
    requires i < |messages| && IndexOf(dict, messages[..i])
    ensures Indexing(dict, messages, i, [])
  {
    hide Contains;
    forall k, t | 0 <= k < i && Contains(messages[k], t)
      ensures Lists(dict, t)
    {
      assert messages[..i][k] == messages[k];
    }
  }

  lemma IndexingEnds(dict: seq<Posting>, messages: seq<string>, i: nat)
    requires i < |messages| && Indexing(dict, messages, i, Words(messages[i], MESSAGE_DELIMITERS))
    ensures IndexOf(dict, messages[..i + 1])
  {
    hide TermOf;
    assert messages[..i + 1][..i] == messages[..i];
  }

  lemma TermOfSnoc(seen: seq<string>, word: string, t: string)
    ensures TermOf(seen + [word], t) <==> TermOf(seen, t) || (t != "" && Term(word) == t)
  {
    hide Normalized;
    var all := seen + [word];
    if TermOf(seen, t) {
      var k :| 0 <= k < |seen| && Term(seen[k]) == t;
      assert Term(all[k]) == t;
    }
    if t != "" && Term(word) == t {
      assert Term(all[|seen|]) == t;
    }
  }

  /** Adds entry `i` under one term of its message. */
  method AddTerm(dict: seq<Posting>, term: string, i: nat) returns (r: seq<Posting>)
    requires Distinct(dict) && term != ""
    ensures Distinct(r) && Lists(r, term)
    ensures forall t :: Lists(r, t) <==> Lists(dict, t) || t == term
    ensures |r| == |dict| || (|r| == |dict| + 1 && r[|dict|] == Posting(term, [i]) && !Lists(dict, term))
    ensures forall d :: 0 <= d < |dict| ==> r[d].term == dict[d].term
    ensures forall d :: 0 <= d < |dict| && dict[d].term != term ==> r[d] == dict[d]
    ensures forall d :: 0 <= d < |dict| && dict[d].term == term ==>
      var e := dict[d].entries;
      r[d].entries == if e == [] || e[|e| - 1] != i then e + [i] else e
  {
    var d := 0;
    while d < |dict| && dict[d].term != term
      invariant 0 <= d <= |dict|
      invariant forall k :: 0 <= k < d ==> dict[k].term != term
    {
      d := d + 1;
    }
    if d == |dict| {
      r := dict + [Posting(term, [i])];
      assert r[|dict|].term == term;
      forall t | Lists(dict, t)
        ensures Lists(r, t)
      {
        var k :| 0 <= k < |dict| && dict[k].term == t;
        assert r[k].term == t;
      }
      return;
    }
    var e := dict[d].entries;
    r := dict;
    if |e| == 0 || e[|e| - 1] != i {
      r := dict[d := Posting(term, e + [i])];
    }
    assert r[d].term == term;
    forall t | Lists(dict, t)
      ensures Lists(r, t)
    {
      var k :| 0 <= k < |dict| && dict[k].term == t;
      assert r[k].term == t;
    }
  }

  /** One more word of message `i`. */
  lemma WordIndexed(dict: seq<Posting>, r: seq<Posting>, messages: seq<string>, i: nat,
      seen: seq<string>, word: string)
    requires i < |messages| && Indexing(dict, messages, i, seen) && Distinct(r)
    requires Term(word) != ""
    requires forall t :: Lists(r, t) <==> Lists(dict, t) || t == Term(word)
    requires |r| == |dict| ||
      (|r| == |dict| + 1 && r[|dict|] == Posting(Term(word), [i]) && !Lists(dict, Term(word)))
    requires forall d :: 0 <= d < |dict| ==> r[d].term == dict[d].term
    requires forall d :: 0 <= d < |dict| && dict[d].term != Term(word) ==> r[d] == dict[d]
    requires forall d :: 0 <= d < |dict| && dict[d].term == Term(word) ==>
      var e := dict[d].entries;
      r[d].entries == if e == [] || e[|e| - 1] != i then e + [i] else e
    ensures Indexing(r, messages, i, seen + [word])
  {
    hide Contains, TermOf, Term, Distinct, Lists;
    var before := messages[..i];
    forall d | 0 <= d < |r|
      ensures r[d].entries
        == Occurrences(before, r[d].term) + (if TermOf(seen + [word], r[d].term) then [i] else [])
    {
      var t := r[d].term;
      TermOfSnoc(seen, word, t);
      if d < |dict| {
        OccurrencesEarlier(before, t);
        assert dict[d].term == t;
      } else {
        forall k, u | 0 <= k < |before| && Contains(before[k], u)
          ensures Lists(dict, u)
        {
          assert before[k] == messages[k];
        }
        NewTerm(dict, before, t);
        assert TermOf(seen, t) ==> Lists(dict, t);
      }
    }
    forall t | TermOf(seen + [word], t)
      ensures Lists(r, t)
    {
      TermOfSnoc(seen, word, t);
    }
  }

  /** The last occurrence among the earlier messages is not the current one. */
  lemma OccurrencesEarlier(before: seq<string>, t: string)
    ensures var o := Occurrences(before, t);
      && (o == [] || o[|o| - 1] != |before|)
      && o + [] == o && (o + [|before|])[|o|] == |before|
  {
    hide Contains, Occurrences;
    OccurrencesAre(before, t);
    var o := Occurrences(before, t);
    assert o != [] ==> o[|o| - 1] in o;
  }

  /** A term not listed yet occurs in no earlier message. */
  lemma NewTerm(dict: seq<Posting>, messages: seq<string>, t: string)
    requires forall k, t :: 0 <= k < |messages| && Contains(messages[k], t) ==> Lists(dict, t)
    requires !Lists(dict, t)
    ensures Occurrences(messages, t) == []
  {
    hide Contains, Lists;
    OccurrencesAre(messages, t);
    var o := Occurrences(messages, t);
    HeadIn(o);
  }

  method BuildIndex(messages: seq<string>) returns (dict: seq<Posting>)
    ensures IndexOf(dict, messages)
  {
    hide Contains, Occurrences, Distinct, TermOf, Term;
    dict := [];
    assert Distinct(dict) by { NoPostings(); }
    for i := 0 to |messages|
      invariant IndexOf(dict, messages[..i])
    {
      var words := Words(messages[i], MESSAGE_DELIMITERS);
      IndexingStarts(dict, messages, i);
      assert words[..0] == [];
      for k := 0 to |words|
        invariant Indexing(dict, messages, i, words[..k])
      {
        hide Indexing;
        assert words[..k + 1] == words[..k] + [words[k]];
        var term := NormalizeTerm(words[k]);
        IndexingDistinct(dict, messages, i, words[..k]);
        if |term| > 0 {
          var r := AddTerm(dict, term, i);
          WordIndexed(dict, r, messages, i, words[..k], words[k]);
          dict := r;
        } else {
          WordSkipped(dict, messages, i, words[..k], words[k]);
        }
      }
      assert words[..|words|] == words;
      IndexingEnds(dict, messages, i);
    }
    assert messages[..|messages|] == messages;
  }

  lemma NoPostings()
    ensures Distinct([])
  {
  }

  lemma IndexingDistinct(dict: seq<Posting>, messages: seq<string>, i: nat, seen: seq<string>)
    requires i < |messages| && Indexing(dict, messages, i, seen)
    ensures Distinct(dict)
  {
  }

  lemma WordSkipped(dict: seq<Posting>, messages: seq<string>, i: nat, seen: seq<string>, word: string)
    requires i < |messages| && Indexing(dict, messages, i, seen) && Term(word) == ""
    ensures Indexing(dict, messages, i, seen + [word])
  {
    hide Contains, TermOf, Term, Distinct, Lists, Occurrences;
    forall t
      ensures TermOf(seen + [word], t) == TermOf(seen, t)
    {
      TermOfSnoc(seen, word, t);
    }
  }

  // ---------------------------------------------------------------- merging

  /** Strictly increasing lists are determined by their elements. */
  lemma {:induction false} IncreasingUnique(a: seq<nat>, b: seq<nat>)
    requires Increasing(a) && Increasing(b) && forall x :: x in a <==> x in b
    ensures a == b
    decreases |a|
  {
    if a == [] {
      HeadIn(b);
    } else {
      var n, m := |a| - 1, |b| - 1;
      assert a[n] in a && (b != [] ==> b[m] in b);
      assert b[m] == a[n] by {
        var k :| 0 <= k < |b| && b[k] == a[n];
        var j :| 0 <= j < |a| && a[j] == b[m];
      }
      forall x
        ensures x in a[..n] <==> x in b[..m]
      {
        assert x in a[..n] <==> x in a && x != a[n];
        assert x in b[..m] <==> x in b && x != b[m];
      }
      IncreasingUnique(a[..n], b[..m]);
      assert a == a[..n] + [a[n]] && b == b[..m] + [b[m]];
    }
  }

  method Intersect(a: seq<nat>, b: seq<nat>) returns (res: seq<nat>)
    requires Increasing(a) && Increasing(b)
    ensures Increasing(res) && forall x :: x in res <==> x in a && x in b
  {
    res := [];
    var i, j := 0, 0;
    while i < |a| && j < |b|
      invariant 0 <= i <= |a| && 0 <= j <= |b| && Increasing(res)
      invariant forall x :: x in res <==> x in a[..i] && x in b[..j]
      invariant forall x :: x in a[..i] && x in b ==> x in b[..j]
      invariant forall x :: x in b[..j] && x in a ==> x in a[..i]
      invariant forall k :: 0 <= k < |res| ==> (i < |a| ==> res[k] < a[i]) && (j < |b| ==> res[k] < b[j])
      decreases |a| - i + |b| - j
    {
      assert a[..i + 1] == a[..i] + [a[i]] && b[..j + 1] == b[..j] + [b[j]];
      if a[i] == b[j] {
        res := res + [a[i]];
        i, j := i + 1, j + 1;
      } else if a[i] < b[j] {
        NotAhead(b, j, a[i]);
        i := i + 1;
      } else {
        NotAhead(a, i, b[j]);
        j := j + 1;
      }
    }
    assert a[..|a|] == a && b[..|b|] == b;
  }

  /** A value below the next element of an increasing list is in the list only if already passed. */
  lemma NotAhead(s: seq<nat>, j: nat, x: nat)
    requires Increasing(s) && j < |s| && x < s[j]
    ensures x in s <==> x in s[..j]
  {
    if x in s {
      var k :| 0 <= k < |s| && s[k] == x;
      assert s[..j][k] == x;
    }
  }

  method Union(a: seq<nat>, b: seq<nat>) returns (res: seq<nat>)
    requires Increasing(a) && Increasing(b)
    ensures Increasing(res) && forall x :: x in res <==> x in a || x in b
  {
    res := [];
    var i, j := 0, 0;
    while i < |a| && j < |b|
      invariant 0 <= i <= |a| && 0 <= j <= |b| && Increasing(res)
      invariant forall x :: x in res <==> x in a[..i] || x in b[..j]
      invariant forall k :: 0 <= k < |res| ==> (i < |a| ==> res[k] < a[i]) && (j < |b| ==> res[k] < b[j])
      decreases |a| - i + |b| - j
    {
      assert a[..i + 1] == a[..i] + [a[i]] && b[..j + 1] == b[..j] + [b[j]];
      if a[i] == b[j] {
        res := res + [a[i]];
        i, j := i + 1, j + 1;
      } else if a[i] < b[j] {
        res := res + [a[i]];
        i := i + 1;
      } else {
        res := res + [b[j]];
        j := j + 1;
      }
    }
    ghost var j0 := j;
    while i < |a|
      invariant 0 <= i <= |a| && Increasing(res) && (i < |a| ==> j == |b|)
      invariant forall x :: x in res <==> x in a[..i] || x in b[..j]
      invariant forall k :: 0 <= k < |res| ==> (i < |a| ==> res[k] < a[i]) && (j < |b| ==> res[k] < b[j])
    {
      assert a[..i + 1] == a[..i] + [a[i]];
      res := res + [a[i]];
      i := i + 1;
    }
    while j < |b|
      invariant 0 <= j <= |b| && Increasing(res) && i == |a|
      invariant forall x :: x in res <==> x in a[..i] || x in b[..j]
      invariant forall k :: 0 <= k < |res| ==> (j < |b| ==> res[k] < b[j])
    {
      assert b[..j + 1] == b[..j] + [b[j]];
      res := res + [b[j]];
      j := j + 1;
    }
    assert a[..|a|] == a && b[..|b|] == b;
  }

  // ---------------------------------------------------------------- queries

  ghost predicate Matches(message: string, words: seq<string>, isAnd: bool) {
    if isAnd then forall k :: 0 <= k < |words| ==> Contains(message, Term(words[k]))
    else exists k :: 0 <= k < |words| && Contains(message, Term(words[k]))
  }

  /** The plain scan: the matching entries in order. */
  ghost function Scan(messages: seq<string>, words: seq<string>, isAnd: bool): seq<nat> {
    if messages == [] then []
    else
      var n := |messages| - 1;
      Scan(messages[..n], words, isAnd) + (if Matches(messages[n], words, isAnd) then [n] else [])
  }

  lemma {:induction false} ScanIs(messages: seq<string>, words: seq<string>, isAnd: bool)
    ensures Increasing(Scan(messages, words, isAnd))
    ensures forall x :: x in Scan(messages, words, isAnd) <==> 0 <= x < |messages| && Matches(messages[x], words, isAnd)
    decreases |messages|
  {
    hide Matches;
    if messages != [] {
      var n := |messages| - 1;
      ScanIs(messages[..n], words, isAnd);
      hide Increasing;
      IncreasingSnoc(Scan(messages[..n], words, isAnd), n);
      assert forall x :: 0 <= x < n ==> messages[..n][x] == messages[x];
    }
  }

  /** The posting list of a query word, empty if the word is unknown. */
  method PostingList(dict: seq<Posting>, word: string, ghost messages: seq<string>) returns (r: seq<nat>)
    requires IndexOf(dict, messages)
    ensures r == Occurrences(messages, Term(word))
  {
    hide Contains, Occurrences, Term, Distinct;
    var clean := NormalizeTerm(word);
    for i := 0 to |dict|
      invariant forall k :: 0 <= k < i ==> dict[k].term != clean
    {
      if dict[i].term == clean {
        return dict[i].entries;
      }
    }
    NewTerm(dict, messages, clean);
    return [];
  }

  lemma MatchesSnoc(message: string, words: seq<string>, word: string, isAnd: bool)
    requires words != []
    ensures Matches(message, words + [word], isAnd) <==>
      if isAnd then Matches(message, words, isAnd) && Contains(message, Term(word))
      else Matches(message, words, isAnd) || Contains(message, Term(word))
  {
    hide Contains, Term;
    var all := words + [word];
    assert all[|words|] == word;
    if isAnd {
      if Matches(message, all, isAnd) {
        forall k | 0 <= k < |words|
          ensures Contains(message, Term(words[k]))
        {
          assert all[k] == words[k];
        }
      }
    } else if Matches(message, words, isAnd) {
      var k :| 0 <= k < |words| && Contains(message, Term(words[k]));
      assert all[k] == words[k];
    }
  }

  lemma MatchesOne(message: string, word: string, isAnd: bool)
    ensures Matches(message, [word], isAnd) <==> Contains(message, Term(word))
  {
    hide Contains, Term;
    assert [word][0] == word;
  }

  /** The words of a query, of which 255 characters are read. */
  function QueryWords(query: string): seq<string> {
    Words(if |query| > QUERY_LEN then query[..QUERY_LEN] else query, " ")
  }

  /** The ascending list of entries that contain all, or any, of the terms, cut at `maxCount`; a
      query without words has no answer. */
  ghost function Answer(messages: seq<string>, query: string, isAnd: bool, maxCount: int): seq<nat> {
    var words := QueryWords(query);
    var all := if words == [] then [] else Scan(messages, words, isAnd);
    if maxCount <= 0 then [] else if maxCount < |all| then all[..maxCount] else all
  }

  /** The query text has a word, and the message contains the terms of all of its words, or of one. */
  ghost predicate Asked(message: string, read: string, isAnd: bool) {
    && (exists i, w :: WordAt(read, " ", i, w))
    && if isAnd then forall i, w :: WordAt(read, " ", i, w) ==> Contains(message, Term(w))
       else exists i, w :: WordAt(read, " ", i, w) && Contains(message, Term(w))
  }

  lemma AskedIs(message: string, read: string, isAnd: bool)
    ensures var words := Words(read, " ");
      words != [] && Matches(message, words, isAnd) <==> Asked(message, read, isAnd)
  {
    hide Words, WordAt, Contains, Term, Matches;
    var words := Words(read, " ");
    forall w ensures w in words <==> exists i :: WordAt(read, " ", i, w) {
      WordIn(read, " ", w);
    }
    if words != [] {
      assert words[0] in words;
    }
    MatchesByWord(message, words, isAnd);
    if Asked(message, read, isAnd) {
      var i, w :| WordAt(read, " ", i, w);
      assert w in words;
      if !isAnd {
        var j, v :| WordAt(read, " ", j, v) && Contains(message, Term(v));
        assert v in words;
      }
    }
    if words != [] && Matches(message, words, isAnd) {
      forall i, w | WordAt(read, " ", i, w) ensures w in words {
      }
      if !isAnd {
        var v :| v in words && Contains(message, Term(v));
        var j :| WordAt(read, " ", j, v);
      }
    }
  }

  /** The messages a query names, in order; of more than asked for, the first ones. */
  lemma AnswerIs(messages: seq<string>, query: string, isAnd: bool, maxCount: int)
    ensures var read := if |query| > 255 then query[..255] else query;
      var all := Answer(messages, query, isAnd, |messages|);
      && Increasing(all)
      && (forall x: nat :: x in all <==> x < |messages| && Asked(messages[x], read, isAnd))
      && Answer(messages, query, isAnd, maxCount)
         == if maxCount < 0 then [] else if maxCount < |all| then all[..maxCount] else all
  {
    var words := QueryWords(query);
    ScanIs(messages, words, isAnd);
    ScanSize(messages, words, isAnd);
    hide Scan, Matches, Asked, Words;
    forall x: nat | x < |messages|
      ensures words != [] && Matches(messages[x], words, isAnd)
        <==> Asked(messages[x], if |query| > 255 then query[..255] else query, isAnd)
    {
      AskedIs(messages[x], if |query| > 255 then query[..255] else query, isAnd);
    }
  }

  lemma MatchesByWord(message: string, words: seq<string>, isAnd: bool)
    ensures Matches(message, words, isAnd) <==>
      if isAnd then forall w :: w in words ==> Contains(message, Term(w))
      else exists w :: w in words && Contains(message, Term(w))
  {
    hide Contains, Term;
  }

  lemma {:induction false} ScanSize(messages: seq<string>, words: seq<string>, isAnd: bool)
    ensures |Scan(messages, words, isAnd)| <= |messages|
    decreases |messages|
  {
    if messages != [] {
      ScanSize(messages[..|messages| - 1], words, isAnd);
    }
  }

  /** A query returns what a scan of the messages the index was built over returns. */
  method QueryByIndex(dict: seq<Posting>, query: string, isAnd: bool, maxCount: int, ghost messages: seq<string>)
    returns (results: seq<nat>)
    requires IndexOf(dict, messages)
    ensures results == Answer(messages, query, isAnd, maxCount)
  {
    hide IndexOf, Occurrences, Scan, Matches, Contains, Term, Words;
    var copy := if |query| > QUERY_LEN then query[..QUERY_LEN] else query;
    var words := Words(copy, " ");
    var final: seq<nat> := [];
    for k := 0 to |words|
      invariant Increasing(final) && (k == 0 ==> final == [])
      invariant k > 0 ==> forall x :: x in final <==> 0 <= x < |messages| && Matches(messages[x], words[..k], isAnd)
    {
      var list := PostingList(dict, words[k], messages);
      OccurrencesAre(messages, Term(words[k]));
      assert words[..k + 1] == words[..k] + [words[k]];
      if k == 0 {
        final := list;
        assert words[..1] == [words[0]];
        forall x: nat | x < |messages|
          ensures Matches(messages[x], words[..1], isAnd) <==> Contains(messages[x], Term(words[0]))
        {
          MatchesOne(messages[x], words[0], isAnd);
        }
      } else {
        forall x: nat | x < |messages|
          ensures Matches(messages[x], words[..k + 1], isAnd) <==>
            if isAnd then Matches(messages[x], words[..k], isAnd) && Contains(messages[x], Term(words[k]))
            else Matches(messages[x], words[..k], isAnd) || Contains(messages[x], Term(words[k]))
        {
          MatchesSnoc(messages[x], words[..k], words[k], isAnd);
        }
        if isAnd {
          final := Intersect(final, list);
        } else {
          final := Union(final, list);
        }
      }
    }
    assert words[..|words|] == words;
    if words != [] {
      ScanIs(messages, words, isAnd);
      IncreasingUnique(final, Scan(messages, words, isAnd));
    }
    results := [];
    var m := 0;
    while m < |final| && |results| < maxCount
      invariant 0 <= m <= |final| && results == final[..m]
      invariant m <= maxCount || m == 0
    {
      results := results + [final[m]];
      m := m + 1;
    }
    assert final[..|final|] == final;
  }
}
