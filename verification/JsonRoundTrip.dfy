/** What the printer writes, the parser reads back. */
module JsonRoundTrip {
  import opened Chars
  import opened Slices
  import opened VectorClock
  import opened LogEntry
  import opened JsonText
  import opened JsonParse

  // ---------------------------------------------------------------- strings

  /** Characters that are printed as they are and end nothing. */
  predicate Plain(c: char) { IsPrint(c) && c != '"' && c != '\\' && c != '{' && c != '}' }

  ghost predicate AllPlain(s: string) {
    forall i :: 0 <= i < |s| ==> Plain(s[i])
  }

  lemma {:induction false} PlainIsItself(s: string)
    requires AllPlain(s)
    ensures Escape(s) == s && Clean(s) == s
    decreases |s|
  {
    if s != "" {
      PlainIsItself(s[1..]);
      assert s == [s[0]] + s[1..];
    }
  }

  lemma PlainConcat(a: string, b: string)
    requires AllPlain(a) && AllPlain(b)
    ensures AllPlain(a + b)
  {
  }

  lemma {:induction false} DigitsPlain(n: nat)
    ensures AllPlain(Digits(n)) && forall i :: 0 <= i < |Digits(n)| ==> IsDigit(Digits(n)[i])
    decreases n
  {
    if n >= 10 {
      DigitsPlain(n / 10);
    }
  }

  lemma NodeNamePlain(i: nat)
    ensures AllPlain(NodeName(i))
  {
    DigitsPlain(i);
    PlainConcat("node-", Digits(i));
  }

  lemma EscapeHead(c: char, t: string)
    ensures Escape([c] + t) == EscapeChar(c) + Escape(t)
    ensures Clean([c] + t) == (if Survives(c) then [c] else "") + Clean(t)
  {
    assert ([c] + t)[1..] == t;
  }

  /** Reading an escaped string up to its closing quote gives its surviving characters. */
  lemma {:induction false} ReadsChars(s: string, p: nat, t: string, room: nat, strict: bool)
    requires Placed(s, p, Escape(t) + "\"") && |Clean(t)| <= room
    ensures ReadChars(s, p, room, strict) == Str(Clean(t), p + |Escape(t)| + 1)
    decreases |t|
  {
    hide ReadChars, EscapeChar, Survives;
    if t == "" {
      assert Escape(t) + "\"" == "\"";
      ReadsEnd(s, p, room, strict);
    } else {
      var c, u := t[0], t[1..];
      var e := EscapeChar(c);
      assert t == [c] + u;
      EscapeHead(c, u);
      assert Escape(t) + "\"" == e + (Escape(u) + "\"");
      AtSplit(s, p, e, Escape(u) + "\"");
      SurvivorsShow(c);
      if Survives(c) {
        ReadsChars(s, p + |e|, u, room - 1, strict);
        ReadsOne(s, p, c, room, strict, ReadChars(s, p + |e|, room - 1, strict));
      } else {
        ReadsChars(s, p, u, room, strict);
      }
    }
  }

  lemma ReadsEnd(s: string, p: nat, room: nat, strict: bool)
    requires Placed(s, p, "\"")
    ensures ReadChars(s, p, room, strict) == Str("", p + 1)
  {
    AtIndex(s, p, "\"", 0);
  }

  lemma ReadsOne(s: string, p: nat, c: char, room: nat, strict: bool, r: Str)
    requires Survives(c) && room > 0 && Placed(s, p, EscapeChar(c))
    requires r == ReadChars(s, p + |EscapeChar(c)|, room - 1, strict)
    ensures ReadChars(s, p, room, strict) == Prepend(c, r)
  {
    AtIndex(s, p, EscapeChar(c), 0);
    if |EscapeChar(c)| == 2 {
      AtIndex(s, p, EscapeChar(c), 1);
    }
  }

  lemma SurvivorsShow(c: char)
    ensures Survives(c) <==> EscapeChar(c) != ""
  {
  }

  lemma ReadsQuoted(s: string, p: nat, t: string, size: nat, strict: bool)
    requires Placed(s, p, Quoted(Escape(t))) && |Clean(t)| < size
    ensures ReadStr(s, p, size, strict) == Str(Clean(t), p + |Quoted(Escape(t))|)
  {
    hide Escape, Clean, ReadChars;
    AtSplit(s, p, "\"", Escape(t) + "\"");
    AtIndex(s, p, "\"", 0);
    NotSpace(s, p);
    ReadsChars(s, p + 1, t, size - 1, strict);
  }

  lemma ReadsPlain(s: string, p: nat, t: string, size: nat, strict: bool)
    requires Placed(s, p, Quoted(t)) && |t| < size && AllPlain(t)
    ensures ReadStr(s, p, size, strict) == Str(t, p + |Quoted(t)|)
  {
    hide ReadStr, Quoted;
    PlainIsItself(t);
    ReadsQuoted(s, p, t, size, strict);
  }

  // ---------------------------------------------------------------- numbers

  lemma {:induction false} ReadsDigitsPrefix(s: string, p: nat, n: nat)
    requires Placed(s, p, Digits(n)) && n < WORD
    ensures ReadDigits(s, p, 0) == ReadDigits(s, p + |Digits(n)|, n)
    decreases n
  {
    if n < 10 {
      AtIndex(s, p, Digits(n), 0);
    } else {
      AtSplit(s, p, Digits(n / 10), [Digit(n % 10)]);
      ReadsDigitsPrefix(s, p, n / 10);
      AtIndex(s, p + |Digits(n / 10)|, [Digit(n % 10)], 0);
      OneDigit(s, p + |Digits(n / 10)|, n);
    }
  }

  lemma OneDigit(s: string, p: nat, n: nat)
    requires p < |s| && s[p] == Digit(n % 10) && n < WORD
    ensures ReadDigits(s, p, n / 10) == ReadDigits(s, p + 1, n)
  {
    assert DigitValue(s[p]) == n % 10;
    assert (n / 10 * 10 + n % 10) % WORD == n;
  }

  lemma ReadsNumber(s: string, p: nat, n: nat)
    requires Placed(s, p, Digits(n)) && n < WORD && !IsDigit(Char(s, p + |Digits(n)|))
    ensures SkipSpace(s, p) == p && IsDigit(Char(s, p))
    ensures ReadDigits(s, p, 0) == Num(n, p + |Digits(n)|)
  {
    DigitsPlain(n);
    AtIndex(s, p, Digits(n), 0);
    hide Digits;
    ReadsDigitsPrefix(s, p, n);
  }

  // ---------------------------------------------------------------- the clock

  lemma NoSpaceAt(s: string, p: nat, part: string)
    requires Placed(s, p, part) && part != "" && !IsSpace(part[0])
    ensures Char(s, p) == part[0] && SkipSpace(s, p) == p
  {
    AtIndex(s, p, part, 0);
    NotSpace(s, p);
  }

  ghost function PairsFrom(vc: Clock, i: nat): seq<Pair>
    requires i <= |vc|
  {
    seq(|vc| - i, k requires 0 <= k < |vc| - i => Pair(NodeName(i + k), vc[i + k]))
  }

  /** One component, followed by a comma and the next one or by the closing brace. */
  lemma ReadsPair(s: string, p: nat, vc: Clock, i: nat)
    requires i < |vc| <= MAX_NODES && vc[i] < WORD
    requires Placed(s, p, VcItem(vc, i)) && !IsDigit(Char(s, p + |VcItem(vc, i)|))
    ensures ReadPairs(s, p, i) ==
      var rest := ReadPairs(s, AfterComma(s, p + |VcItem(vc, i)|), i + 1);
      if rest.NoPairs? then NoPairs else Pairs([Pair(NodeName(i), vc[i])] + rest.items, rest.next)
  {
    hide Digits, AfterComma, ReadStr, ReadDigits, SkipSpace;
    var name, value := Quoted(NodeName(i)), Digits(vc[i]);
    NodeNamePlain(i);
    NodeNameShort(i);
    AtSplit(s, p, name, ":" + value);
    assert Char(s, p) == '"' by { AtIndex(s, p, name, 0); }
    ReadsPlain(s, p, NodeName(i), KEY_SIZE, true);
    var q := p + |name|;
    AtSplit(s, q, ":", value);
    NoSpaceAt(s, q, ":");
    ReadsNumber(s, q + 1, vc[i]);
  }

  lemma NodeNameShort(i: nat)
    requires i < MAX_NODES
    ensures |NodeName(i)| <= 7
  {
    assert Pow10(2) == 100;
    DigitsSize(i, 2);
  }

  lemma PairsFromStep(vc: Clock, i: nat)
    requires i < |vc|
    ensures PairsFrom(vc, i) == [Pair(NodeName(i), vc[i])] + PairsFrom(vc, i + 1)
    ensures PairsFrom(vc, |vc|) == []
  {
  }

  lemma {:induction false} ReadsItems(s: string, p: nat, vc: Clock, i: nat)
    requires i < |vc| <= MAX_NODES && forall k :: 0 <= k < |vc| ==> vc[k] < WORD
    requires Placed(s, p, VcItem(vc, i) + (VcItems(vc, i + 1) + "}"))
    ensures ReadPairs(s, p, i) == Pairs(PairsFrom(vc, i), p + |VcItem(vc, i)| + |VcItems(vc, i + 1)|)
    decreases |vc| - i
  {
    hide VcItem, VcItems, ReadPairs, NodeName, SkipSpace, AfterComma, PairsFrom;
    AtSplit(s, p, VcItem(vc, i), VcItems(vc, i + 1) + "}");
    var q := p + |VcItem(vc, i)|;
    PairsFromStep(vc, i);
    if i + 1 == |vc| {
      ItemsEnd(vc, "}");
      ClosesItems(s, q, i + 1);
    } else {
      var more := VcItem(vc, i + 1) + (VcItems(vc, i + 2) + "}");
      assert VcItems(vc, i + 1) + "}" == "," + more by { ItemsUnfold(vc, i + 1); }
      ItemStarts(vc, i + 1, VcItems(vc, i + 2) + "}");
      NextItem(s, q, more);
      ReadsItems(s, q + 1, vc, i + 1);
      ItemsUnfold(vc, i + 1);
    }
    ReadsPair(s, p, vc, i);
  }

  /** The closing brace after the last component. */
  lemma ClosesItems(s: string, q: nat, count: nat)
    requires Placed(s, q, "}")
    ensures !IsDigit(Char(s, q)) && AfterComma(s, q) == q && ReadPairs(s, q, count) == Pairs([], q)
  {
    NoSpaceAt(s, q, "}");
    PairsEnd(s, q, count);
  }

  /** A comma and the next component. */
  lemma NextItem(s: string, q: nat, more: string)
    requires Placed(s, q, "," + more) && more != "" && more[0] == '"'
    ensures !IsDigit(Char(s, q)) && AfterComma(s, q) == q + 1 && Placed(s, q + 1, more)
  {
    hide SkipSpace;
    AtSplit(s, q, ",", more);
    NoSpaceAt(s, q, ",");
    NoSpaceAt(s, q + 1, more);
  }

  lemma PairsEnd(s: string, p: nat, count: nat)
    requires Char(s, p) == '}'
    ensures ReadPairs(s, p, count) == Pairs([], p)
  {
  }

  lemma ItemStarts(vc: Clock, i: nat, rest: string)
    requires i < |vc|
    ensures (VcItem(vc, i) + rest)[0] == '"'
  {
  }

  /** Pairs in order under the default names are the clock. */
  lemma {:induction false} AssignedIs(vc: Clock, i: nat)
    requires i <= |vc|
    ensures Assigned(PairsFrom(vc, 0), i) == vc[..i] + seq(|vc| - i, _ => 0)
    decreases i
  {
    hide NodeName, Atoi;
    if i > 0 {
      AssignedIs(vc, i - 1);
    }
  }

  lemma ReadsFirstItem(s: string, vc: Clock)
    requires 0 < |vc| <= MAX_NODES && forall k :: 0 <= k < |vc| ==> vc[k] < WORD
    requires Placed(s, 1, VcItems(vc, 0) + "}")
    ensures Char(s, 1) == '"' && SkipSpace(s, 1) == 1
    ensures ReadPairs(s, 1, 0) == Pairs(PairsFrom(vc, 0), 1 + |VcItems(vc, 0)|)
  {
    hide VcItem, ReadPairs, PairsFrom;
    ItemsUnfold(vc, 0);
    var rest := VcItems(vc, 1) + "}";
    assert VcItems(vc, 0) + "}" == VcItem(vc, 0) + rest;
    ItemStarts(vc, 0, rest);
    NoSpaceAt(s, 1, VcItem(vc, 0) + rest);
    ReadsItems(s, 1, vc, 0);
  }

  lemma ReadsClock(vc: Clock)
    requires |vc| <= MAX_NODES && forall k :: 0 <= k < |vc| ==> vc[k] < WORD
    ensures ReadClock(VcText(vc)) == SomeClock(vc)
  {
    hide ReadPairs, Assigned, VcItem, VcItems, SkipSpace;
    var s := VcText(vc);
    assert s[0..|s|] == s;
    AtSplit(s, 0, "{", VcItems(vc, 0) + "}");
    NoSpaceAt(s, 0, "{");
    if |vc| == 0 {
      ItemsEnd(vc, "}");
      NoSpaceAt(s, 1, "}");
    } else {
      ReadsFirstItem(s, vc);
      AtSplit(s, 1, VcItems(vc, 0), "}");
      NoSpaceAt(s, 1 + |VcItems(vc, 0)|, "}");
      AssignedIs(vc, |vc|);
      assert vc[..|vc|] + [] == vc;
    }
  }

  /** No brace or NUL. */
  ghost predicate Flat(s: string) {
    forall i :: 0 <= i < |s| ==> s[i] != '{' && s[i] != '}' && s[i] != '\0'
  }

  lemma {:induction false} ItemsFlat(vc: Clock, i: nat)
    requires i <= |vc|
    ensures Flat(VcItems(vc, i))
    decreases |vc| - i
  {
    if i < |vc| {
      ItemsFlat(vc, i + 1);
      NodeNamePlain(i);
      DigitsPlain(vc[i]);
      hide VcItems, NodeName, Digits;
      assert Flat(VcItem(vc, i));
      assert VcItems(vc, i) == (if i > 0 then "," else "") + (VcItem(vc, i) + VcItems(vc, i + 1)) by { ItemsUnfold(vc, i); }
    }
  }

  lemma ItemsUnfold(vc: Clock, i: nat)
    requires i < |vc|
    ensures VcItems(vc, i) == (if i > 0 then "," else "") + (VcItem(vc, i) + VcItems(vc, i + 1))
  {
  }

  lemma {:induction false} NestedSkips(s: string, p: nat, part: string)
    requires Placed(s, p, part) && Flat(part)
    ensures Nested(s, p, '{', '}', 1) == Nested(s, p + |part|, '{', '}', 1)
    decreases |part|
  {
    if part != "" {
      AtIndex(s, p, part, 0);
      AtSplit(s, p, [part[0]], part[1..]);
      NestedSkips(s, p + 1, part[1..]);
    }
  }

  lemma ObjectIsClock(s: string, p: nat, vc: Clock)
    requires Placed(s, p, VcText(vc))
    ensures ObjectEnd(s, p) == p + |VcText(vc)|
  {
    hide VcItems;
    AtSplit(s, p, "{", VcItems(vc, 0) + "}");
    AtIndex(s, p, "{", 0);
    AtSplit(s, p + 1, VcItems(vc, 0), "}");
    var q := p + 1 + |VcItems(vc, 0)|;
    AtIndex(s, q, "}", 0);
    ItemsFlat(vc, 0);
    NestedSkips(s, p + 1, VcItems(vc, 0));
  }

  // ---------------------------------------------------------------- the entry

  /** One field, followed by a comma and the next field or by the closing brace. */
  lemma FieldReads(s: string, p: nat, key: string, value: string, rest: string, e: Entry, e2: Entry)
    requires Placed(s, p, Field(key, value) + rest)
    requires AllPlain(key) && |key| < KEY_SIZE
    requires value != "" && !IsSpace(value[0])
    requires FieldValue(s, p + |key| + 3, key, e) == FieldRead(e2, p + |Field(key, value)|)
    requires rest == "}" || (|rest| >= 2 && rest[0] == ',' && rest[1] == '"')
    ensures ReadFields(s, p, e) == ReadFields(s, p + |Field(key, value)| + (if rest == "}" then 0 else 1), e2)
  {
    hide ReadStr, FieldValue, SkipSpace, ReadFields, AfterComma, Quoted, AllPlain;
    AtSplit(s, p, Field(key, value), rest);
    FieldStarts(s, p, key, value);
    var q, n := p + |key| + 2, p + |Field(key, value)|;
    FieldEnds(s, n, rest);
    FieldsStep(s, p, e, Str(key, q), q, FieldRead(e2, n));
  }

  /** The key, the colon and the first character of the value. */
  lemma FieldStarts(s: string, p: nat, key: string, value: string)
    requires Placed(s, p, Field(key, value)) && AllPlain(key) && |key| < KEY_SIZE
    requires value != "" && !IsSpace(value[0])
    ensures Char(s, p) == '"' && ReadStr(s, p, KEY_SIZE, false) == Str(key, p + |key| + 2)
    ensures var q := p + |key| + 2;
      SkipSpace(s, q) == q && Char(s, q) == ':' && SkipSpace(s, q + 1) == q + 1
  {
    hide ReadStr, SkipSpace, AllPlain;
    AtSplit(s, p, Quoted(key), ":" + value);
    AtIndex(s, p, Quoted(key), 0);
    ReadsPlain(s, p, key, KEY_SIZE, false);
    var q := p + |Quoted(key)|;
    AtSplit(s, q, ":", value);
    NoSpaceAt(s, q, ":");
    NoSpaceAt(s, q + 1, value);
  }

  lemma FieldEnds(s: string, n: nat, rest: string)
    requires Placed(s, n, rest)
    requires rest == "}" || (|rest| >= 2 && rest[0] == ',' && rest[1] == '"')
    ensures AfterComma(s, n) == n + (if rest == "}" then 0 else 1)
  {
    hide SkipSpace;
    NoSpaceAt(s, n, rest);
    if rest != "}" {
      AtIndex(s, n, rest, 1);
      NotSpace(s, n + 1);
    }
  }

  lemma FieldsStep(s: string, p: nat, e: Entry, key: Str, q: nat, f: FieldResult)
    requires Char(s, p) == '"' && key.Str? && ReadStr(s, p, KEY_SIZE, false) == key
    requires SkipSpace(s, key.next) == q && Char(s, q) == ':'
    requires f.FieldRead? && FieldValue(s, SkipSpace(s, q + 1), key.text, e) == f
    ensures ReadFields(s, p, e) == ReadFields(s, AfterComma(s, f.next), f.entry)
  {
    hide ReadStr, FieldValue, SkipSpace, AfterComma;
  }

  lemma FieldAt(s: string, p: nat, key: string, value: string, rest: string)
    requires Placed(s, p, Field(key, value) + rest)
    ensures Placed(s, p + |key| + 3, value) && p + |key| + 3 + |value| == p + |Field(key, value)|
    ensures Placed(s, p + |Field(key, value)|, rest)
  {
    AtSplit(s, p, Field(key, value), rest);
    AtSplit(s, p, Quoted(key), ":" + value);
    AtSplit(s, p + |Quoted(key)|, ":", value);
  }

  /** The parts of the text after the comma of each field. */
  lemma PartStarts(e: Entry)
    ensures ClockPart(e) == "," + (Field("vector_clock", VcText(e.vc)) + TimePart(e))
    ensures ClockPart(e)[0] == ',' && ClockPart(e)[1] == '"' && |ClockPart(e)| >= 2
    ensures TimePart(e)[0] == ',' && TimePart(e)[1] == '"' && |TimePart(e)| >= 2
    ensures LevelPart(e)[0] == ',' && LevelPart(e)[1] == '"' && |LevelPart(e)| >= 2
    ensures MessagePart(e)[0] == ',' && MessagePart(e)[1] == '"' && |MessagePart(e)| >= 2
  {
    hide Escape, VcText, Digits, LevelText;
  }

  lemma KeysPlain()
    ensures AllPlain("node_id") && AllPlain("vector_clock") && AllPlain("timestamp")
    ensures AllPlain("level") && AllPlain("message")
  {
  }

  lemma ReadsNode(s: string, p: nat, e: Entry, x: Entry)
    requires Within(e) && Placed(s, p, Field("node_id", Quoted(Escape(e.nodeId))) + ClockPart(e))
    ensures var v := Quoted(Escape(e.nodeId));
      ReadFields(s, p, x) == ReadFields(s, p + |Field("node_id", v)| + 1, x.(nodeId := Clean(e.nodeId)))
  {
    hide Escape, Clean, ReadStr, ReadFields, ClockPart, Field;
    var v := Quoted(Escape(e.nodeId));
    FieldAt(s, p, "node_id", v, ClockPart(e));
    CleanSize(e.nodeId);
    ReadsQuoted(s, p + 10, e.nodeId, NODE_ID_MAX + 1, false);
    KeysPlain();
    PartStarts(e);
    FieldReads(s, p, "node_id", v, ClockPart(e), x, x.(nodeId := Clean(e.nodeId)));
  }

  lemma ReadsVc(s: string, p: nat, e: Entry, x: Entry)
    requires Within(e) && Placed(s, p, Field("vector_clock", VcText(e.vc)) + TimePart(e))
    ensures ReadFields(s, p, x) ==
      ReadFields(s, p + |Field("vector_clock", VcText(e.vc))| + 1, x.(vc := e.vc))
  {
    hide ReadStr, ReadFields, TimePart, Field, ReadClock, ObjectEnd, VcItems;
    var v := VcText(e.vc);
    FieldAt(s, p, "vector_clock", v, TimePart(e));
    ObjectIsClock(s, p + 15, e.vc);
    ReadsClock(e.vc);
    KeysPlain();
    PartStarts(e);
    FieldReads(s, p, "vector_clock", v, TimePart(e), x, x.(vc := e.vc));
  }

  lemma ReadsTime(s: string, p: nat, e: Entry, x: Entry)
    requires Within(e) && Placed(s, p, Field("timestamp", Digits(e.timestamp)) + LevelPart(e))
    ensures ReadFields(s, p, x) ==
      ReadFields(s, p + |Field("timestamp", Digits(e.timestamp))| + 1, x.(timestamp := e.timestamp))
  {
    hide ReadStr, ReadFields, LevelPart, Field, Digits, ReadDigits, SkipSpace;
    var v := Digits(e.timestamp);
    FieldAt(s, p, "timestamp", v, LevelPart(e));
    KeysPlain();
    PartStarts(e);
    AtIndex(s, p + 12 + |v|, LevelPart(e), 0);
    ReadsNumber(s, p + 12, e.timestamp);
    DigitsPlain(e.timestamp);
    FieldReads(s, p, "timestamp", v, LevelPart(e), x, x.(timestamp := e.timestamp));
  }

  lemma LevelReads(level: nat)
    ensures AllPlain(LevelText(level)) && |LevelText(level)| <= 7
    ensures LevelFromStr(LevelText(level)) == if level <= 4 then level else 1
  {
    var t := LevelText(level);
    if level == 1 {
      DifferentSize(t, "DEBUG");
    } else if level == 2 {
      DifferentSize(t, "DEBUG");
      assert ToLower(t[0]) != ToLower("INFO"[0]);
    } else if level == 3 {
      assert ToLower(t[0]) != ToLower("DEBUG"[0]);
    } else if level == 4 {
      assert ToLower(t[0]) != ToLower("DEBUG"[0]);
      assert ToLower(t[0]) != ToLower("ERROR"[0]);
    }
  }

  lemma DifferentSize(a: string, b: string)
    requires |a| != |b|
    ensures !SameText(a, b)
  {
  }

  lemma ReadsLevel(s: string, p: nat, e: Entry, x: Entry)
    requires Placed(s, p, Field("level", Quoted(LevelText(e.level))) + MessagePart(e))
    ensures ReadFields(s, p, x) ==
      ReadFields(s, p + |Field("level", Quoted(LevelText(e.level)))| + 1,
        x.(level := if e.level <= 4 then e.level else 1))
  {
    hide ReadStr, ReadFields, MessagePart, Field, LevelText, LevelFromStr;
    var v := Quoted(LevelText(e.level));
    FieldAt(s, p, "level", v, MessagePart(e));
    LevelReads(e.level);
    ReadsPlain(s, p + 8, LevelText(e.level), VALUE_SIZE, false);
    KeysPlain();
    PartStarts(e);
    FieldReads(s, p, "level", v, MessagePart(e), x, x.(level := if e.level <= 4 then e.level else 1));
  }

  lemma ReadsMessage(s: string, p: nat, e: Entry, x: Entry)
    requires Within(e) && Placed(s, p, Field("message", Quoted(Escape(e.message))) + "}")
    ensures ReadFields(s, p, x) == Parsed(x.(message := Clean(e.message)))
  {
    hide Escape, Clean, ReadStr, Field;
    var v := Quoted(Escape(e.message));
    FieldAt(s, p, "message", v, "}");
    CleanSize(e.message);
    ReadsQuoted(s, p + 10, e.message, MESSAGE_MAX + 1, false);
    KeysPlain();
    var x2 := x.(message := Clean(e.message));
    FieldReads(s, p, "message", v, "}", x, x2);
    var n := p + |Field("message", v)|;
    AtIndex(s, n, "}", 0);
    FieldsEnd(s, n, x2);
  }

  lemma FieldsEnd(s: string, p: nat, x: Entry)
    requires Char(s, p) == '}'
    ensures ReadFields(s, p, x) == Parsed(x)
  {
  }

  // From each field on to the end of the text.

  lemma ReadsFromLevel(s: string, p: nat, e: Entry, x: Entry)
    requires Within(e) && Placed(s, p, LevelPart(e))
    ensures ReadFields(s, p + 1, x) ==
      Parsed(x.(level := if e.level <= 4 then e.level else 1, message := Clean(e.message)))
  {
    hide Escape, Clean, LevelText, Field, Quoted, ReadFields;
    var f, g := Field("level", Quoted(LevelText(e.level))), Field("message", Quoted(Escape(e.message)));
    AtSplit(s, p, ",", f + MessagePart(e));
    ReadsLevel(s, p + 1, e, x);
    AtSplit(s, p + 1, f, MessagePart(e));
    AtSplit(s, p + 1 + |f|, ",", g + "}");
    ReadsMessage(s, p + 2 + |f|, e, x.(level := if e.level <= 4 then e.level else 1));
  }

  lemma ReadsFromTime(s: string, p: nat, e: Entry, x: Entry)
    requires Within(e) && Placed(s, p, TimePart(e))
    ensures ReadFields(s, p + 1, x) == Parsed(x.(timestamp := e.timestamp,
      level := if e.level <= 4 then e.level else 1, message := Clean(e.message)))
  {
    hide Clean, Digits, Field, LevelPart, ReadFields;
    var f := Field("timestamp", Digits(e.timestamp));
    AtSplit(s, p, ",", f + LevelPart(e));
    ReadsTime(s, p + 1, e, x);
    AtSplit(s, p + 1, f, LevelPart(e));
    ReadsFromLevel(s, p + 1 + |f|, e, x.(timestamp := e.timestamp));
  }

  lemma ReadsFromClock(s: string, p: nat, e: Entry, x: Entry)
    requires Within(e) && Placed(s, p, ClockPart(e))
    ensures ReadFields(s, p + 1, x) == Parsed(x.(vc := e.vc, timestamp := e.timestamp,
      level := if e.level <= 4 then e.level else 1, message := Clean(e.message)))
  {
    hide Clean, VcText, Field, TimePart, ReadFields;
    var f := Field("vector_clock", VcText(e.vc));
    AtSplit(s, p, ",", f + TimePart(e));
    ReadsVc(s, p + 1, e, x);
    AtSplit(s, p + 1, f, TimePart(e));
    ReadsFromTime(s, p + 1 + |f|, e, x.(vc := e.vc));
  }

  /** Parsing what was printed restores the entry, up to characters that are not printed. */
  lemma JsonRoundTrips(e: Entry)
    requires Within(e)
    ensures ReadEntry(EntryText(e)) == Parsed(Cleaned(e))
    ensures |EntryText(e)| < MAX_ENTRY_SIZE
  {
    hide Escape, Clean, EntryText, ClockPart, Field, Quoted, ReadFields, SkipSpace;
    EntryFits(e);
    EntryParts(e);
    var s := EntryText(e);
    var f := Field("node_id", Quoted(Escape(e.nodeId)));
    assert s[0..|s|] == s;
    AtSplit(s, 0, "{", f + ClockPart(e));
    NoSpaceAt(s, 0, "{");
    FirstQuote("node_id", Quoted(Escape(e.nodeId)), ClockPart(e));
    NoSpaceAt(s, 1, f + ClockPart(e));
    ReadsNode(s, 1, e, BLANK);
    AtSplit(s, 1, f, ClockPart(e));
    ReadsFromClock(s, 1 + |f|, e, BLANK.(nodeId := Clean(e.nodeId)));
  }

  /** All characters are newline, tab or have a code from 32 to 126. */
  ghost predicate Printable(s: string) {
    forall i :: 0 <= i < |s| ==> s[i] as int == 10 || s[i] as int == 9 || 32 <= s[i] as int <= 126
  }

  lemma PrintableSurvives(s: string)
    ensures Printable(s) <==> forall i :: 0 <= i < |s| ==> Survives(s[i])
  {
    forall c: char
      ensures Survives(c) <==> c as int == 10 || c as int == 9 || 32 <= c as int <= 126
    {
      ByCode(c);
    }
  }

  /** An entry is restored exactly when its characters are all printed and its level is known. */
  lemma RestoredIffPrintable(e: Entry)
    requires Within(e)
    ensures ReadEntry(EntryText(e)) == Parsed(e) <==> Printable(e.nodeId) && Printable(e.message) && e.level <= 4
  {
    hide ReadEntry, EntryText, Cleaned, Printable, Survives;
    JsonRoundTrips(e);
    CleanedIsSame(e);
    PrintableSurvives(e.nodeId);
    PrintableSurvives(e.message);
  }

  /** A carriage return is lost, and so is a level past FATAL. */
  lemma PrintingLoses()
    ensures var e, f := Entry("node-01", [1], 0, 1, "a\rb"), Entry("node-01", [1], 0, 7, "ab");
      ReadEntry(EntryText(e)) != Parsed(e) && ReadEntry(EntryText(f)) != Parsed(f)
  {
    hide ReadEntry, EntryText;
    var e, f := Entry("node-01", [1], 0, 1, "a\rb"), Entry("node-01", [1], 0, 7, "ab");
    RestoredIffPrintable(e);
    RestoredIffPrintable(f);
    assert e.message[1] as int == 13;
  }

  // ---------------------------------------------------------------- names of components

  lemma {:induction false} AtoiRun(s: string, p: nat, n: nat)
    requires Placed(s, p, Digits(n))
    ensures AtoiDigits(s, p, 0) == AtoiDigits(s, p + |Digits(n)|, n)
    decreases n
  {
    if n < 10 {
      AtIndex(s, p, Digits(n), 0);
    } else {
      AtSplit(s, p, Digits(n / 10), [Digit(n % 10)]);
      AtoiRun(s, p, n / 10);
      AtIndex(s, p + |Digits(n / 10)|, [Digit(n % 10)], 0);
      assert DigitValue(s[p + |Digits(n / 10)|]) == n % 10;
    }
  }

  /** A pair named after a component sets that component, wherever it stands; other names that do not
      begin with "node-" set none. */
  lemma TargetIs(items: seq<Pair>, i: nat, k: nat)
    requires i < |items|
    ensures items[i].key == "node-" + Digits(k) ==> Target(items, i) == k
    ensures !("node-" <= items[i].key) ==> Target(items, i) == -1
  {
    hide Digits, AtoiDigits;
    var key := items[i].key;
    if key == "node-" + Digits(k) {
      assert key[..5] == "node-" && key[5..] == Digits(k);
      AtoiIs(k);
      if key == NodeName(i) {
        assert key[5..] == Digits(i);
        AtoiIs(i);
      }
    }
    if !("node-" <= key) {
      assert NodeName(i)[..5] == "node-";
      assert |key| >= 5 ==> key[..5] != "node-";
    }
  }

  lemma AtoiIs(k: nat)
    ensures Atoi(Digits(k)) == k
  {
    DigitsPlain(k);
    var s := Digits(k);
    assert s[0..|s|] == s;
    AtIndex(s, 0, s, 0);
    NotSpace(s, 0);
    AtoiRun(s, 0, k);
    hide Digits;
    assert AtoiDigits(s, |s|, k) == k;
  }

  lemma FirstQuote(key: string, value: string, rest: string)
    ensures Field(key, value) + rest != "" && (Field(key, value) + rest)[0] == '"'
  {
  }

  /** An entry sent by an agent and parsed by the server. */
  method SendAndReceive(e: Entry) returns (sent: bool, r: EntryResult)
    requires Within(e)
    ensures sent && r == Parsed(Cleaned(e))
    ensures r == Parsed(e) <==> Printable(e.nodeId) && Printable(e.message) && e.level <= 4
  {
    hide EntryText, Cleaned, ReadEntry, Printable;
    JsonRoundTrips(e);
    RestoredIffPrintable(e);
    var text;
    sent, text := EntryToJson(e, MAX_ENTRY_SIZE);
    r := Rejected;
    if sent {
      r := EntryFromJson(text);
    }
  }
}
