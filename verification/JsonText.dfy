/** The JSON printer for log entries without metadata. */
module JsonText {
  import opened Chars
  import opened VectorClock
  import opened LogEntry

  const NODE_ID_MAX := 31
  const MESSAGE_MAX := 1023
  const MAX_ENTRY_SIZE := 4096

  // ---------------------------------------------------------------- printing

  function EscapeChar(c: char): string {
    if c == '"' then "\\\""
    else if c == '\\' then "\\\\"
    else if c == '\n' then "\\n"
    else if c == '\t' then "\\t"
    else if IsPrint(c) then [c] else ""
  }

  function Escape(s: string): string {
    if s == "" then "" else EscapeChar(s[0]) + Escape(s[1..])
  }

  /** What is printed for one character, by its code: a backslash (92) before quote, backslash, and
      the letters that stand for newline and tab; the other printable characters as they are; nothing
      for the rest. */
  lemma EscapeCharIs(c: char)
    ensures var code := c as int;
      EscapeChar(c) ==
        if code == 34 || code == 92 then [92 as char, c]
        else if code == 10 then [92 as char, 110 as char]
        else if code == 9 then [92 as char, 116 as char]
        else if 32 <= code <= 126 then [c] else ""
  {
  }

  function Digit(n: nat): char
    requires n < 10
  {
    '0' + (n as char)
  }

  function Digits(n: nat): (r: string)
    ensures r != ""
  {
    if n < 10 then [Digit(n)] else Digits(n / 10) + [Digit(n % 10)]
  }

  /** The value of a string of decimal digits. */
  function DecimalValue(s: string): int {
    if s == "" then 0 else 10 * DecimalValue(s[..|s| - 1]) + (s[|s| - 1] as int - 48)
  }

  /** Printed numbers are decimal, without leading zeros. */
  lemma {:induction false} DigitsAre(n: nat)
    ensures DecimalValue(Digits(n)) == n
    ensures forall i :: 0 <= i < |Digits(n)| ==> 48 <= Digits(n)[i] as int <= 57
    ensures Digits(n)[0] == '0' ==> n == 0 && Digits(n) == "0"
    decreases n
  {
    if n >= 10 {
      DigitsAre(n / 10);
      var s := Digits(n);
      assert s[..|s| - 1] == Digits(n / 10);
      assert s[0] == Digits(n / 10)[0];
    } else {
      assert Digits(n)[..0] == "";
    }
  }

  function NodeName(i: nat): string { "node-" + Digits(i) }

  function Quoted(s: string): string { "\"" + (s + "\"") }

  function VcItem(vc: Clock, i: nat): string
    requires i < |vc|
  {
    Quoted(NodeName(i)) + (":" + Digits(vc[i]))
  }

  /** Components from `i` on, each after the first preceded by a comma. */
  function VcItems(vc: Clock, i: nat): string
    requires i <= |vc|
    decreases |vc| - i
  {
    if i == |vc| then "" else (if i > 0 then "," else "") + (VcItem(vc, i) + VcItems(vc, i + 1))
  }

  function VcText(vc: Clock): string { "{" + (VcItems(vc, 0) + "}") }

  function LevelText(level: nat): string {
    if level == 0 then "DEBUG" else if level == 1 then "INFO" else if level == 2 then "WARN"
    else if level == 3 then "ERROR" else if level == 4 then "FATAL" else "UNKNOWN"
  }

  function Field(key: string, value: string): string { Quoted(key) + (":" + value) }

  function EntryText(e: Entry): string {
    "{" + (Field("node_id", Quoted(Escape(e.nodeId)))
    + ("," + (Field("vector_clock", VcText(e.vc))
    + ("," + (Field("timestamp", Digits(e.timestamp))
    + ("," + (Field("level", Quoted(LevelText(e.level)))
    + ("," + (Field("message", Quoted(Escape(e.message)))
    + "}")))))))))
  }

  /** The text of an entry, spelled out around its strings, numbers and level. */
  lemma EntryTextIs(e: Entry)
    ensures EntryText(e) ==
      "{\"node_id\":\"" + (Escape(e.nodeId) + ("\",\"vector_clock\":" + (VcText(e.vc)
      + (",\"timestamp\":" + (Digits(e.timestamp) + (",\"level\":\"" + (LevelText(e.level)
      + ("\",\"message\":\"" + (Escape(e.message) + "\"}")))))))))
  {
    hide Escape, VcText, Digits, LevelText, Field, Quoted;
    var q := "\"";
    var five := "," + (Field("message", Quoted(Escape(e.message))) + "}");
    var four := "," + (Field("level", Quoted(LevelText(e.level))) + five);
    var three := "," + (Field("timestamp", Digits(e.timestamp)) + four);
    var two := "," + (Field("vector_clock", VcText(e.vc)) + three);
    assert EntryText(e) == "{" + (Field("node_id", Quoted(Escape(e.nodeId))) + two);
    QuotedFieldIs("node_id", Escape(e.nodeId), two);
    FieldIs("vector_clock", VcText(e.vc), three);
    FieldIs("timestamp", Digits(e.timestamp), four);
    QuotedFieldIs("level", LevelText(e.level), five);
    QuotedFieldIs("message", Escape(e.message), "}");
    FiveParts(Escape(e.nodeId), VcText(e.vc), Digits(e.timestamp), LevelText(e.level), Escape(e.message));
  }

  lemma QuotedFieldIs(key: string, text: string, rest: string)
    ensures Field(key, Quoted(text)) + rest == "\"" + (key + ("\":\"" + (text + ("\"" + rest))))
  {
  }

  lemma FiveParts(a: string, b: string, c: string, d: string, m: string)
    ensures
      var five := "," + ("\"" + ("message" + ("\":\"" + (m + ("\"" + "}")))));
      var four := "," + ("\"" + ("level" + ("\":\"" + (d + ("\"" + five)))));
      var three := "," + ("\"" + ("timestamp" + ("\":" + (c + four))));
      var two := "," + ("\"" + ("vector_clock" + ("\":" + (b + three))));
      "{" + ("\"" + ("node_id" + ("\":\"" + (a + ("\"" + two))))) ==
      "{\"node_id\":\"" + (a + ("\",\"vector_clock\":" + (b + (",\"timestamp\":" + (c + (",\"level\":\"" + (d
      + ("\",\"message\":\"" + (m + "\"}")))))))))
  {
    var five := "," + ("\"" + ("message" + ("\":\"" + (m + ("\"" + "}")))));
    assert "\"" + five == "\",\"message\":\"" + (m + "\"}");
    var four := "," + ("\"" + ("level" + ("\":\"" + (d + ("\"" + five)))));
    assert four == ",\"level\":\"" + (d + ("\"" + five));
    var three := "," + ("\"" + ("timestamp" + ("\":" + (c + four))));
    assert three == ",\"timestamp\":" + (c + four);
    var two := "," + ("\"" + ("vector_clock" + ("\":" + (b + three))));
    assert "\"" + two == "\",\"vector_clock\":" + (b + three);
  }

  lemma FieldIs(key: string, value: string, rest: string)
    ensures Field(key, value) + rest == "\"" + (key + ("\":" + (value + rest)))
  {
  }

  lemma LevelNames()
    ensures LevelText(0) == "DEBUG" && LevelText(1) == "INFO" && LevelText(2) == "WARN"
    ensures LevelText(3) == "ERROR" && LevelText(4) == "FATAL" && forall l :: l > 4 ==> LevelText(l) == "UNKNOWN"
  {
  }

  /** The text of a clock: braces around the components, each under its name, separated by commas. */
  lemma ClockTextIs(vc: Clock, i: nat)
    requires i < |vc|
    ensures VcText(vc) == "{" + (VcItems(vc, 0) + "}")
    ensures VcItem(vc, i) == "\"node-" + (Digits(i) + ("\":" + Digits(vc[i])))
    ensures VcItems(vc, i) == (if i > 0 then "," else "") + (VcItem(vc, i) + VcItems(vc, i + 1))
    ensures VcItems(vc, |vc|) == ""
  {
    hide Digits;
    assert VcItem(vc, i) == Quoted("node-" + Digits(i)) + (":" + Digits(vc[i]));
  }

  /** What an entry structure can hold. */
  ghost predicate Within(e: Entry) {
    && |e.nodeId| <= NODE_ID_MAX && |e.message| <= MESSAGE_MAX
    && |e.vc| <= MAX_NODES && (forall i :: 0 <= i < |e.vc| ==> e.vc[i] < WORD)
    && e.timestamp < WORD
  }

  /** The characters that survive printing: printable ASCII, newline and tab. */
  predicate Survives(c: char) { IsPrint(c) || c == '\n' || c == '\t' }

  function Clean(s: string): string {
    if s == "" then "" else (if Survives(s[0]) then [s[0]] else "") + Clean(s[1..])
  }

  /** What is left of one character, by its code, and of strings part by part. */
  lemma CleanChar(c: char)
    ensures var code := c as int;
      Clean([c]) == if code == 9 || code == 10 || 32 <= code <= 126 then [c] else ""
  {
    assert [c][1..] == "" && Clean("") == "";
  }

  lemma {:induction false} CleanConcat(a: string, b: string)
    ensures Clean(a + b) == Clean(a) + Clean(b)
    decreases |a|
  {
    if a == "" {
      assert a + b == b;
    } else {
      assert (a + b)[1..] == a[1..] + b;
      CleanConcat(a[1..], b);
    }
  }

  function Cleaned(e: Entry): Entry {
    Entry(Clean(e.nodeId), e.vc, e.timestamp, if e.level <= 4 then e.level else 1, Clean(e.message))
  }

  lemma {:induction false} CleanSize(s: string)
    ensures |Clean(s)| <= |s| && (|Clean(s)| == |s| ==> Clean(s) == s)
    ensures Clean(s) == s <==> forall i :: 0 <= i < |s| ==> Survives(s[i])
    decreases |s|
  {
    if s != "" {
      CleanSize(s[1..]);
      assert s == [s[0]] + s[1..];
    }
  }

  /** Nothing is lost exactly when the strings hold only surviving characters and the level is
      one of the five. */
  lemma CleanedIsSame(e: Entry)
    ensures Cleaned(e) == e <==>
      && (forall i :: 0 <= i < |e.nodeId| ==> Survives(e.nodeId[i]))
      && (forall i :: 0 <= i < |e.message| ==> Survives(e.message[i]))
      && e.level <= 4
  {
    CleanSize(e.nodeId);
    CleanSize(e.message);
  }

  // ---------------------------------------------------------------- sizes

  lemma {:induction false} EscapeSize(s: string)
    ensures |Escape(s)| <= 2 * |s|
    decreases |s|
  {
    if s != "" {
      EscapeSize(s[1..]);
    }
  }

  function Pow10(k: nat): (p: nat)
    ensures p > 0
  {
    if k == 0 then 1 else 10 * Pow10(k - 1)
  }

  lemma {:induction false} DigitsSize(n: nat, k: nat)
    requires k > 0 && n < Pow10(k)
    ensures |Digits(n)| <= k
    decreases k
  {
    if n >= 10 {
      assert Pow10(k - 1) > 1 by {
        assert Pow10(k) == 10 * Pow10(k - 1);
      }
      DigitsSize(n / 10, k - 1);
    }
  }

  lemma WordSize(n: nat)
    requires n < WORD
    ensures |Digits(n)| <= 20
  {
    assert Pow10(5) == 100000 by { assert Pow10(2) == 100; assert Pow10(4) == 10000; }
    assert Pow10(10) == 10000000000 by { assert Pow10(7) == 10000000; assert Pow10(9) == 1000000000; }
    assert Pow10(15) == 1000000000000000 by { assert Pow10(12) == 1000000000000; assert Pow10(14) == 100000000000000; }
    assert Pow10(20) == 100000000000000000000 by {
      assert Pow10(17) == 100000000000000000;
      assert Pow10(19) == 10000000000000000000;
    }
    DigitsSize(n, 20);
  }

  lemma {:induction false} VcItemsSize(vc: Clock, i: nat)
    requires i <= |vc| <= MAX_NODES && forall k :: 0 <= k < |vc| ==> vc[k] < WORD
    ensures |VcItems(vc, i)| <= 31 * (|vc| - i)
    decreases |vc| - i
  {
    if i < |vc| {
      VcItemsSize(vc, i + 1);
      assert Pow10(2) == 100;
      DigitsSize(i, 2);
      WordSize(vc[i]);
    }
  }

  /** A full entry fits the buffer of 4096 bytes, and the datagram. */
  lemma EntryFits(e: Entry)
    requires Within(e)
    ensures |EntryText(e)| < MAX_ENTRY_SIZE
  {
    hide Escape, VcItems, Digits;
    EscapeSize(e.nodeId);
    EscapeSize(e.message);
    VcItemsSize(e.vc, 0);
    WordSize(e.timestamp);
  }

  // ---------------------------------------------------------------- the printer

  lemma {:induction false} EscapeConcat(a: string, b: string)
    ensures Escape(a + b) == Escape(a) + Escape(b)
    decreases |a|
  {
    if a == "" {
      assert a + b == b;
    } else {
      assert (a + b)[1..] == a[1..] + b;
      EscapeConcat(a[1..], b);
    }
  }

  /** The escaped text grows by one character of the source. */
  lemma EscapeSnoc(src: string, p: nat)
    requires p < |src|
    ensures Escape(src[..p + 1]) == Escape(src[..p]) + EscapeChar(src[p])
  {
    assert src[..p + 1] == src[..p] + [src[p]];
    assert Escape([src[p]]) == EscapeChar(src[p]);
    EscapeConcat(src[..p], [src[p]]);
  }

  lemma Regroup(a: string, b: string, c: string)
    ensures a + (b + c) == (a + b) + c
  {
  }

  /** json_escape with room for `dstLen` bytes including the terminator: the source is cut at the
      first character at which fewer than three of them are left. */
  method JsonEscape(src: string, dstLen: nat) returns (dst: string, ghost used: nat)
    requires dstLen >= 1
    ensures |dst| < dstLen
    ensures used <= |src| && dst == Escape(src[..used])
    ensures used < |src| ==> |dst| + 2 >= dstLen
    ensures forall q :: 0 <= q < used ==> |Escape(src[..q])| + 2 < dstLen
    ensures 2 * |src| + 1 <= dstLen ==> dst == Escape(src)
  {
    hide Escape;
    dst := "";
    var p := 0;
    assert Escape(src[..0]) == "" by { EscapeSize(src[..0]); }
    while p < |src| && |dst| < dstLen - 2
      invariant 0 <= p <= |src| && |dst| < dstLen && |dst| <= 2 * p
      invariant dst == Escape(src[..p])
      invariant forall q :: 0 <= q < p ==> |Escape(src[..q])| + 2 < dstLen
    {
      EscapeSnoc(src, p);
      var c := src[p];
      if c == '"' || c == '\\' || c == '\n' || c == '\t' {
        if |dst| + 2 < dstLen {
          dst := dst + EscapeChar(c);
        }
      } else if IsPrint(c) {
        dst := dst + [c];
      }
      p := p + 1;
    }
    used := p;
    assert p == |src| ==> src[..p] == src;
  }

  /** One snprintf of `piece`: fails when the text and its terminator do not fit what is left. The
      text being printed is `all`; `rest` is what will follow. */
  method Print(buf: string, piece: string, bufLen: nat, ghost rest: string, ghost all: string)
    returns (ok: bool, r: string)
    requires buf + (piece + rest) == all
    ensures ok <==> |buf| + |piece| < bufLen
    ensures ok ==> r == buf + piece && r + rest == all && |r| < bufLen
    ensures !ok ==> |all| >= bufLen
  {
    if |piece| >= bufLen - |buf| {
      assert |all| == |buf| + (|piece| + |rest|);
      return false, buf;
    }
    r := buf + piece;
    assert r + rest == buf + (piece + rest);
    return true, r;
  }

  method VcToJson(vc: Clock, buf: string, bufLen: nat, ghost rest: string, ghost all: string)
    returns (ok: bool, r: string)
    requires buf + (VcText(vc) + rest) == all
    ensures ok ==> r + rest == all && |r| < bufLen
    ensures !ok ==> |all| >= bufLen
  {
    hide VcItem, VcItems;
    ghost var tail := "}" + rest;
    assert VcText(vc) + rest == "{" + (VcItems(vc, 0) + tail);
    ok, r := Print(buf, "{", bufLen, VcItems(vc, 0) + tail, all);
    if !ok {
      return;
    }
    var i := 0;
    while i < |vc|
      invariant 0 <= i <= |vc| && |r| < bufLen
      invariant r + (VcItems(vc, i) + tail) == all
    {
      ItemsStep(vc, i, tail);
      if i > 0 {
        ok, r := Print(r, ",", bufLen, VcItem(vc, i) + (VcItems(vc, i + 1) + tail), all);
        if !ok {
          return;
        }
      }
      ok, r := Print(r, VcItem(vc, i), bufLen, VcItems(vc, i + 1) + tail, all);
      if !ok {
        return;
      }
      i := i + 1;
    }
    ItemsEnd(vc, tail);
    ok, r := Print(r, "}", bufLen, rest, all);
  }

  lemma ItemsStep(vc: Clock, i: nat, tail: string)
    requires i < |vc|
    ensures VcItems(vc, i) + tail ==
      if i > 0 then "," + (VcItem(vc, i) + (VcItems(vc, i + 1) + tail)) else VcItem(vc, i) + (VcItems(vc, i + 1) + tail)
  {
    hide VcItem;
  }

  lemma ItemsEnd(vc: Clock, tail: string)
    ensures VcItems(vc, |vc|) + tail == tail
  {
  }

  // The pieces of an entry from each field on.

  function MessagePart(e: Entry): string { "," + (Field("message", Quoted(Escape(e.message))) + "}") }

  function LevelPart(e: Entry): string { "," + (Field("level", Quoted(LevelText(e.level))) + MessagePart(e)) }

  function TimePart(e: Entry): string { "," + (Field("timestamp", Digits(e.timestamp)) + LevelPart(e)) }

  function ClockPart(e: Entry): string { "," + (Field("vector_clock", VcText(e.vc)) + TimePart(e)) }

  lemma EntryParts(e: Entry)
    ensures EntryText(e) == "{" + (Field("node_id", Quoted(Escape(e.nodeId))) + ClockPart(e))
  {
  }

  lemma FieldText(key: string, value: string, rest: string)
    ensures "," + (Field(key, value) + rest) == ("," + (Quoted(key) + ":")) + (value + rest)
  {
  }

  /** log_entry_to_json for an entry without metadata: the text, if it fits. */
  method EntryToJson(e: Entry, bufLen: nat) returns (ok: bool, text: string)
    requires |e.nodeId| <= NODE_ID_MAX && |e.message| <= MESSAGE_MAX
    ensures ok <==> |EntryText(e)| < bufLen
    ensures ok ==> text == EntryText(e)
  {
    hide Escape, VcText, Digits, LevelText, EntryText, Field, Quoted;
    EntryParts(e);
    ghost var all := EntryText(e);
    var escaped;
    ghost var used;
    escaped, used := JsonEscape(e.nodeId, MESSAGE_MAX * 2 + 1);
    var piece := Field("node_id", Quoted(escaped));
    assert "" + all == all;
    ok, text := Print("", "{", bufLen, piece + ClockPart(e), all);
    if !ok {
      return;
    }
    ok, text := Print(text, piece, bufLen, ClockPart(e), all);
    if !ok {
      return;
    }
    FieldText("vector_clock", VcText(e.vc), TimePart(e));
    ok, text := Print(text, "," + (Quoted("vector_clock") + ":"), bufLen, VcText(e.vc) + TimePart(e), all);
    if !ok {
      return;
    }
    ok, text := VcToJson(e.vc, text, bufLen, TimePart(e), all);
    if !ok {
      return;
    }
    piece := Field("timestamp", Digits(e.timestamp));
    Regroup(",", piece, LevelPart(e));
    ok, text := Print(text, "," + piece, bufLen, LevelPart(e), all);
    if !ok {
      return;
    }
    piece := Field("level", Quoted(LevelText(e.level)));
    Regroup(",", piece, MessagePart(e));
    ok, text := Print(text, "," + piece, bufLen, MessagePart(e), all);
    if !ok {
      return;
    }
    escaped, used := JsonEscape(e.message, MESSAGE_MAX * 2 + 1);
    piece := Field("message", Quoted(escaped));
    Regroup(",", piece, "}");
    ok, text := Print(text, "," + piece, bufLen, "}", all);
    if !ok {
      return;
    }
    assert "}" == "}" + "";
    ok, text := Print(text, "}", bufLen, "", all);
    assert text + "" == text;
  }
}
