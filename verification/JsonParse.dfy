/** The JSON parsers for log entries and clocks. They read the memory a C string stands in: its
    characters, and then the NUL that ends it and whatever follows, if that is given; any position
    past what is given reads as NUL. */
module JsonParse {
  import opened Chars
  import opened VectorClock
  import opened LogEntry
  import opened JsonText

  const KEY_SIZE := 64
  const VALUE_SIZE := 2046

  function Char(s: string, p: nat): char {
    if p < |s| then s[p] else '\0'
  }

  predicate IsSpace(c: char) {
    c == ' ' || c == '\t' || c == '\n' || c == '\r' || c == '\U{000B}' || c == '\U{000C}'
  }

  lemma SpaceByCode(c: char)
    ensures IsSpace(c) <==> 9 <= c as int <= 13 || c as int == 32
  {
  }

  // ---------------------------------------------------------------- scanning

  function SkipSpace(s: string, p: nat): (r: nat)
    ensures r >= p && (p <= |s| ==> r <= |s|)
    decreases if p < |s| then |s| - p else 0
  {
    if p < |s| && IsSpace(s[p]) then SkipSpace(s, p + 1) else p
  }

  method SkipWs(s: string, start: nat) returns (p: nat)
    ensures p == SkipSpace(s, start)
  {
    p := start;
    while Char(s, p) != '\0' && IsSpace(Char(s, p))
      invariant start <= p && SkipSpace(s, start) == SkipSpace(s, p)
      decreases if p < |s| then |s| - p else 0
    {
      p := p + 1;
    }
  }

  datatype Str = NoStr | Str(text: string, next: nat)

  function Prepend(c: char, r: Str): Str {
    if r.NoStr? then NoStr else Str([c] + r.text, r.next)
  }

  function Unescape(c: char): char {
    if c == 'n' then '\n' else if c == 't' then '\t' else if c == 'r' then '\r' else c
  }

  predicate KnownEscape(c: char) { c == '"' || c == '\\' || c == 'n' || c == 't' }

  /** What an escape stands for, by the code of the character after the backslash: n, t and r stand for
      newline, tab and carriage return, others for themselves; the clock parser knows only quote,
      backslash, n and t. */
  lemma EscapesByCode(c: char)
    ensures var code := c as int;
      Unescape(c) as int == if code == 110 then 10 else if code == 116 then 9 else if code == 114 then 13 else code
    ensures KnownEscape(c) <==> c as int in {34, 92, 110, 116}
  {
  }

  /** Rest of a string literal, at most `room` characters of it; the clock parser refuses unknown
      escapes. */
  function ReadChars(s: string, p: nat, room: nat, strict: bool): (r: Str)
    ensures r.Str? ==> p < r.next <= |s|
    decreases if p < |s| then |s| - p else 0
  {
    var c := Char(s, p);
    if c == '\0' || c == '"' || room == 0 then
      if c == '"' then Str("", p + 1) else NoStr
    else if c == '\\' then
      if strict && !KnownEscape(Char(s, p + 1)) then NoStr
      else Prepend(Unescape(Char(s, p + 1)), ReadChars(s, p + 2, room - 1, strict))
    else Prepend(c, ReadChars(s, p + 1, room - 1, strict))
  }

  /** A string literal for a buffer of `size` bytes. */
  function ReadStr(s: string, p: nat, size: nat, strict: bool): (r: Str)
    requires size > 0
    ensures r.Str? ==> p + 1 < r.next <= |s|
  {
    var q := SkipSpace(s, p);
    if Char(s, q) != '"' then NoStr else ReadChars(s, q + 1, size - 1, strict)
  }

  method ParseStr(s: string, start: nat, size: nat, strict: bool) returns (r: Str)
    requires size > 0
    ensures r == ReadStr(s, start, size, strict)
  {
    var p := SkipWs(s, start);
    if Char(s, p) != '"' {
      return NoStr;
    }
    p := p + 1;
    var buf := "";
    ghost var p0 := p;
    while Char(s, p) != '\0' && Char(s, p) != '"' && |buf| < size - 1
      invariant p0 <= p && |buf| <= size - 1
      invariant ReadChars(s, p0, size - 1, strict) == Joined(buf, ReadChars(s, p, size - 1 - |buf|, strict))
      decreases if p < |s| then |s| - p else 0
    {
      ghost var buf0 := buf;
      if Char(s, p) == '\\' {
        p := p + 1;
        if strict && !KnownEscape(Char(s, p)) {
          return NoStr;
        }
        buf := buf + [Unescape(Char(s, p))];
      } else {
        buf := buf + [Char(s, p)];
      }
      p := p + 1;
      JoinedMore(buf0, buf[|buf0|], ReadChars(s, p, size - 1 - |buf|, strict));
    }
    if Char(s, p) != '"' {
      return NoStr;
    }
    assert buf + "" == buf;
    return Str(buf, p + 1);
  }

  ghost function Joined(buf: string, r: Str): Str {
    if r.NoStr? then NoStr else Str(buf + r.text, r.next)
  }

  lemma JoinedMore(buf: string, c: char, r: Str)
    ensures Joined(buf, Prepend(c, r)) == Joined(buf + [c], r)
  {
    if r.Str? {
      assert buf + ([c] + r.text) == (buf + [c]) + r.text;
    }
  }

  datatype Num = Num(value: nat, next: nat)

  function DigitValue(c: char): nat
    requires IsDigit(c)
  {
    (c - '0') as nat
  }

  /** Decimal digits, in 64-bit arithmetic. */
  function ReadDigits(s: string, p: nat, acc: nat): (r: Num)
    ensures r.next >= p && (p <= |s| ==> r.next <= |s|)
    decreases if p < |s| then |s| - p else 0
  {
    if p < |s| && IsDigit(s[p]) then ReadDigits(s, p + 1, (acc * 10 + DigitValue(s[p])) % WORD)
    else Num(acc, p)
  }

  method ParseNum(s: string, start: nat) returns (r: Num)
    ensures r == ReadDigits(s, SkipSpace(s, start), 0)
  {
    var p := SkipWs(s, start);
    ghost var p0 := p;
    var value: nat := 0;
    while IsDigit(Char(s, p))
      invariant p0 <= p && ReadDigits(s, p0, 0) == ReadDigits(s, p, value)
      decreases if p < |s| then |s| - p else 0
    {
      value := (value * 10 + DigitValue(Char(s, p))) % WORD;
      p := p + 1;
    }
    return Num(value, p);
  }

  /** Past the bracket that closes `depth` open ones, or the end. */
  function Nested(s: string, p: nat, open: char, close: char, depth: int): (r: nat)
    ensures r >= p && (p <= |s| ==> r <= |s|)
    decreases if p < |s| then |s| - p else 0
  {
    if p < |s| && s[p] != '\0' && depth > 0 then
      Nested(s, p + 1, open, close, if s[p] == open then depth + 1 else if s[p] == close then depth - 1 else depth)
    else p
  }

  method SkipNested(s: string, start: nat, open: char, close: char) returns (p: nat)
    requires Char(s, start) == open && start < |s| && open != '\0'
    ensures p == Nested(s, start + 1, open, close, 1) && p > start
  {
    p := start;
    var depth := 0;
    p, depth := p + 1, depth + 1;
    while Char(s, p) != '\0' && depth > 0
      invariant start < p && Nested(s, start + 1, open, close, 1) == Nested(s, p, open, close, depth)
      decreases if p < |s| then |s| - p else 0
    {
      if Char(s, p) == open {
        depth := depth + 1;
      } else if Char(s, p) == close {
        depth := depth - 1;
      }
      p := p + 1;
    }
  }

  // ---------------------------------------------------------------- the clock

  datatype Pair = Pair(key: string, value: nat)

  datatype Pairs = NoPairs | Pairs(items: seq<Pair>, next: nat)

  /** Past the blanks, and past one comma with the blanks after it. */
  function AfterComma(s: string, p: nat): (r: nat)
    ensures r >= p && (p <= |s| ==> r <= |s|)
  {
    var q := SkipSpace(s, p);
    if Char(s, q) == ',' then SkipSpace(s, q + 1) else q
  }

  function ReadPairs(s: string, p: nat, count: nat): (r: Pairs)
    decreases if p < |s| then |s| - p else 0
  {
    if Char(s, p) == '\0' || Char(s, p) == '}' then Pairs([], p)
    else if count >= MAX_NODES then NoPairs
    else
      var key := ReadStr(s, p, KEY_SIZE, true);
      if key.NoStr? then NoPairs
      else
        var q := SkipSpace(s, key.next);
        if Char(s, q) != ':' then NoPairs
        else
          var v := SkipSpace(s, q + 1);
          if !IsDigit(Char(s, v)) then NoPairs
          else
            var n := ReadDigits(s, v, 0);
            var rest := ReadPairs(s, AfterComma(s, n.next), count + 1);
            if rest.NoPairs? then NoPairs else Pairs([Pair(key.text, n.value)] + rest.items, rest.next)
  }

  /** Decimal value after optional blanks and sign. */
  function Atoi(s: string): int {
    var p := SkipSpace(s, 0);
    if Char(s, p) == '-' then -(AtoiDigits(s, p + 1, 0) as int)
    else AtoiDigits(s, if Char(s, p) == '+' then p + 1 else p, 0)
  }

  function AtoiDigits(s: string, p: nat, acc: nat): nat
    decreases if p < |s| then |s| - p else 0
  {
    if p < |s| && IsDigit(s[p]) then AtoiDigits(s, p + 1, acc * 10 + DigitValue(s[p])) else acc
  }

  /** The component a pair sets: the one at its own place if it is named so, otherwise the one
      its name gives. */
  function Target(items: seq<Pair>, i: nat): int
    requires i < |items|
  {
    var key := items[i].key;
    if key == NodeName(i) then i
    else if |key| >= 5 && key[..5] == "node-" then Atoi(key[5..]) else -1
  }

  function Assigned(items: seq<Pair>, i: nat): (c: Clock)
    requires i <= |items|
    ensures |c| == |items|
  {
    if i == 0 then seq(|items|, _ => 0)
    else
      var c := Assigned(items, i - 1);
      var t := Target(items, i - 1);
      if 0 <= t < |c| then c[t := items[i - 1].value] else c
  }

  datatype ClockResult = NoClock | SomeClock(clock: Clock)

  function ReadClock(s: string): ClockResult {
    var p := SkipSpace(s, 0);
    if Char(s, p) != '{' then NoClock
    else
      var q := SkipSpace(s, p + 1);
      if Char(s, q) == '}' then SomeClock([])
      else
        var r := ReadPairs(s, q, 0);
        if r.NoPairs? || Char(s, r.next) != '}' then NoClock else SomeClock(Assigned(r.items, |r.items|))
  }

  method SkipComma(s: string, start: nat) returns (p: nat)
    ensures p == AfterComma(s, start)
  {
    p := SkipWs(s, start);
    if Char(s, p) == ',' {
      p := SkipWs(s, p + 1);
    }
  }

  ghost function JoinedPairs(items: seq<Pair>, r: Pairs): Pairs {
    if r.NoPairs? then NoPairs else Pairs(items + r.items, r.next)
  }

  lemma JoinedPairsMore(items: seq<Pair>, x: Pair, r: Pairs)
    ensures JoinedPairs(items, if r.NoPairs? then NoPairs else Pairs([x] + r.items, r.next)) == JoinedPairs(items + [x], r)
  {
    if r.Pairs? {
      assert items + ([x] + r.items) == (items + [x]) + r.items;
    }
  }

  /** The loop over the pairs. */
  method ParsePairs(s: string, start: nat) returns (r: Pairs)
    ensures r == ReadPairs(s, start, 0)
  {
    hide ReadStr, ReadDigits, SkipSpace, AfterComma;
    var p := start;
    var items: seq<Pair> := [];
    PairsAfter(ReadPairs(s, p, 0));
    while Char(s, p) != '\0' && Char(s, p) != '}'
      invariant ReadPairs(s, start, 0) == JoinedPairs(items, ReadPairs(s, p, |items|))
      decreases if p < |s| then |s| - p else 0
    {
      if |items| >= MAX_NODES {
        return NoPairs;
      }
      var key := ParseStr(s, p, KEY_SIZE, true);
      if key.NoStr? {
        return NoPairs;
      }
      var q := SkipWs(s, key.next);
      if Char(s, q) != ':' {
        return NoPairs;
      }
      var v := SkipWs(s, q + 1);
      if !IsDigit(Char(s, v)) {
        return NoPairs;
      }
      assert SkipSpace(s, v) == v by { NotSpace(s, v); }
      var n := ParseNum(s, v);
      JoinedPairsMore(items, Pair(key.text, n.value), ReadPairs(s, AfterComma(s, n.next), |items| + 1));
      items := items + [Pair(key.text, n.value)];
      p := SkipComma(s, n.next);
    }
    assert items + [] == items;
    return Pairs(items, p);
  }

  lemma PairsAfter(r: Pairs)
    ensures JoinedPairs([], r) == r
  {
    if r.Pairs? {
      assert [] + r.items == r.items;
    }
  }

  lemma NotSpace(s: string, p: nat)
    requires !IsSpace(Char(s, p))
    ensures SkipSpace(s, p) == p
  {
  }

  /** vc_from_json with default node names. */
  method ClockFromJson(s: string) returns (r: ClockResult)
    ensures r == ReadClock(s)
  {
    hide ReadPairs, SkipSpace, Target;
    var p := SkipWs(s, 0);
    if Char(s, p) != '{' {
      return NoClock;
    }
    p := SkipWs(s, p + 1);
    if Char(s, p) == '}' {
      return SomeClock([]);
    }
    var pairs := ParsePairs(s, p);
    if pairs.NoPairs? || Char(s, pairs.next) != '}' {
      return NoClock;
    }
    var items := pairs.items;
    var c: Clock := seq(|items|, _ => 0);
    for i := 0 to |items|
      invariant |c| == |items| && c == Assigned(items, i)
    {
      var t := Target(items, i);
      if 0 <= t < |c| {
        c := c[t := items[i].value];
      }
    }
    return SomeClock(c);
  }

  // ---------------------------------------------------------------- the entry

  /** strcasecmp is 0. */
  predicate SameText(a: string, b: string) {
    |a| == |b| && forall i :: 0 <= i < |a| ==> ToLower(a[i]) == ToLower(b[i])
  }

  function LevelFromStr(s: string): nat {
    if SameText(s, "DEBUG") then 0 else if SameText(s, "INFO") then 1 else if SameText(s, "WARN") then 2
    else if SameText(s, "ERROR") then 3 else if SameText(s, "FATAL") then 4 else 1
  }

  function Lower(s: string): string {
    seq(|s|, i requires 0 <= i < |s| => ToLower(s[i]))
  }

  /** Level names are read without regard to case; whatever is none of them reads as INFO. */
  lemma LevelFromStrIs(s: string)
    ensures LevelFromStr(s) ==
      if Lower(s) == "debug" then 0 else if Lower(s) == "warn" then 2
      else if Lower(s) == "error" then 3 else if Lower(s) == "fatal" then 4 else 1
  {
    hide ToLower;
    SameTextIs(s, "DEBUG");
    SameTextIs(s, "INFO");
    SameTextIs(s, "WARN");
    SameTextIs(s, "ERROR");
    SameTextIs(s, "FATAL");
    LowerNames();
  }

  lemma SameTextIs(a: string, b: string)
    ensures SameText(a, b) <==> Lower(a) == Lower(b)
  {
    hide ToLower;
    if Lower(a) == Lower(b) {
      forall i | 0 <= i < |a|
        ensures ToLower(a[i]) == ToLower(b[i])
      {
        assert Lower(a)[i] == Lower(b)[i];
      }
    }
  }

  lemma LowerNames()
    ensures Lower("DEBUG") == "debug" && Lower("INFO") == "info" && Lower("WARN") == "warn"
    ensures Lower("ERROR") == "error" && Lower("FATAL") == "fatal"
  {
  }

  datatype FieldResult = BadField | FieldRead(entry: Entry, next: nat)

  function PlainEnd(s: string, p: nat): (r: nat)
    ensures r >= p && (p <= |s| ==> r <= |s|)
    decreases if p < |s| then |s| - p else 0
  {
    if p < |s| && s[p] != '\0' && s[p] != ',' && s[p] != '}' then PlainEnd(s, p + 1) else p
  }

  /** Past an object at `p`, or `p` itself if none starts there. */
  function ObjectEnd(s: string, p: nat): (r: nat)
    ensures r >= p && (p <= |s| ==> r <= |s|)
  {
    if Char(s, p) == '{' then Nested(s, p + 1, '{', '}', 1) else p
  }

  /** The value of one field, put into the entry. Unknown fields are stepped over: of a string
      only the opening quote, of other values the whole. */
  function FieldValue(s: string, p: nat, key: string, e: Entry): (r: FieldResult)
    ensures r.FieldRead? ==> r.next >= p && (p <= |s| ==> r.next <= |s|)
  {
    if key == "node_id" then
      var v := ReadStr(s, p, NODE_ID_MAX + 1, false);
      if v.NoStr? then BadField else FieldRead(e.(nodeId := v.text), v.next)
    else if key == "vector_clock" then
      var end := ObjectEnd(s, p);
      var c := ReadClock(if p <= |s| then s[p..end] else "");
      FieldRead(if c.NoClock? then e else e.(vc := c.clock), end)
    else if key == "timestamp" then
      var n := ReadDigits(s, SkipSpace(s, p), 0);
      FieldRead(e.(timestamp := n.value), n.next)
    else if key == "level" then
      var v := ReadStr(s, p, VALUE_SIZE, false);
      if v.NoStr? then BadField else FieldRead(e.(level := LevelFromStr(v.text)), v.next)
    else if key == "message" then
      var v := ReadStr(s, p, MESSAGE_MAX + 1, false);
      if v.NoStr? then BadField else FieldRead(e.(message := v.text), v.next)
    else if key == "metadata" then FieldRead(e, ObjectEnd(s, p))
    else if Char(s, p) == '"' then FieldRead(e, p + 1)
    else if Char(s, p) == '{' then FieldRead(e, ObjectEnd(s, p))
    else if Char(s, p) == '[' then FieldRead(e, Nested(s, p + 1, '[', ']', 1))
    else FieldRead(e, PlainEnd(s, p))
  }

  datatype EntryResult = Rejected | Parsed(entry: Entry)

  function ReadFields(s: string, p: nat, e: Entry): EntryResult
    decreases if p < |s| then |s| - p else 0
  {
    if Char(s, p) == '\0' || Char(s, p) == '}' then Parsed(e)
    else
      var key := ReadStr(s, p, KEY_SIZE, false);
      if key.NoStr? then Rejected
      else
        var q := SkipSpace(s, key.next);
        if Char(s, q) != ':' then Rejected
        else
          var f := FieldValue(s, SkipSpace(s, q + 1), key.text, e);
          if f.BadField? then Rejected else ReadFields(s, AfterComma(s, f.next), f.entry)
  }

  const BLANK := Entry("", [], 0, 0, "")

  function ReadEntry(s: string): EntryResult {
    var p := SkipSpace(s, 0);
    if Char(s, p) != '{' then Rejected else ReadFields(s, SkipSpace(s, p + 1), BLANK)
  }

  method ParseValue(s: string, p: nat, key: string, e: Entry) returns (r: FieldResult)
    ensures r == FieldValue(s, p, key, e)
  {
    hide ReadStr, ReadClock, ReadDigits, SkipSpace, LevelFromStr;
    if key == "node_id" {
      var v := ParseStr(s, p, NODE_ID_MAX + 1, false);
      return if v.NoStr? then BadField else FieldRead(e.(nodeId := v.text), v.next);
    } else if key == "vector_clock" {
      var end := p;
      if Char(s, p) == '{' {
        end := SkipNested(s, p, '{', '}');
      }
      var c := ClockFromJson(if p <= |s| then s[p..end] else "");
      return FieldRead(if c.NoClock? then e else e.(vc := c.clock), end);
    } else if key == "timestamp" {
      var n := ParseNum(s, p);
      return FieldRead(e.(timestamp := n.value), n.next);
    } else if key == "level" {
      var v := ParseStr(s, p, VALUE_SIZE, false);
      return if v.NoStr? then BadField else FieldRead(e.(level := LevelFromStr(v.text)), v.next);
    } else if key == "message" {
      var v := ParseStr(s, p, MESSAGE_MAX + 1, false);
      return if v.NoStr? then BadField else FieldRead(e.(message := v.text), v.next);
    }
    var next := SkipValue(s, p, key == "metadata");
    return FieldRead(e, next);
  }

  method SkipValue(s: string, start: nat, metadata: bool) returns (p: nat)
    ensures p == if metadata || Char(s, start) == '{' then ObjectEnd(s, start)
                 else if Char(s, start) == '"' then start + 1
                 else if Char(s, start) == '[' then Nested(s, start + 1, '[', ']', 1)
                 else PlainEnd(s, start)
  {
    p := start;
    if Char(s, p) == '{' {
      p := SkipNested(s, p, '{', '}');
    } else if !metadata {
      if Char(s, p) == '"' {
        // The search for the closing quote stops at the opening one.
        p := p + 1;
      } else if Char(s, p) == '[' {
        p := SkipNested(s, p, '[', ']');
      } else {
        while Char(s, p) != '\0' && Char(s, p) != ',' && Char(s, p) != '}'
          invariant start <= p && PlainEnd(s, start) == PlainEnd(s, p)
          decreases if p < |s| then |s| - p else 0
        {
          p := p + 1;
        }
      }
    }
  }

  /** log_entry_from_json. */
  method EntryFromJson(s: string) returns (r: EntryResult)
    ensures r == ReadEntry(s)
  {
    hide ReadStr, FieldValue, SkipSpace, AfterComma;
    var p := SkipWs(s, 0);
    if Char(s, p) != '{' {
      return Rejected;
    }
    p := SkipWs(s, p + 1);
    var e := BLANK;
    while Char(s, p) != '\0' && Char(s, p) != '}'
      invariant ReadEntry(s) == ReadFields(s, p, e)
      decreases if p < |s| then |s| - p else 0
    {
      var key := ParseStr(s, p, KEY_SIZE, false);
      if key.NoStr? {
        return Rejected;
      }
      var q := SkipWs(s, key.next);
      if Char(s, q) != ':' {
        return Rejected;
      }
      q := SkipWs(s, q + 1);
      var f := ParseValue(s, q, key.text, e);
      if f.BadField? {
        return Rejected;
      }
      e := f.entry;
      p := SkipComma(s, f.next);
    }
    return Parsed(e);
  }
}
