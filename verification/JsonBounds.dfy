/** Where the string loop of the parser stops: at the end of the text, unless a literal ends there in
    a lone backslash. */
module JsonBounds {
  import opened JsonParse

  /** A C string as it stands in memory: the text, its NUL, and whatever follows. */
  function InMemory(text: string, after: string): string {
    text + ("\0" + after)
  }

  ghost predicate NoNul(text: string) {
    forall i :: 0 <= i < |text| ==> text[i] != '\0'
  }

  /** The literal read from `p` on has its last backslash at the end of the text. */
  predicate Dangles(text: string, p: nat, room: nat)
    decreases room
  {
    && p < |text| && room > 0 && text[p] != '"'
    && if text[p] != '\\' then Dangles(text, p + 1, room - 1)
       else p + 1 == |text| || Dangles(text, p + 2, room - 1)
  }

  lemma InMemoryAt(text: string, after: string, p: nat)
    requires p <= |text|
    ensures Char(InMemory(text, after), p) == if p < |text| then text[p] else '\0'
  {
  }

  /** Without such a backslash nothing past the text is read; the clock parser never reads past it. */
  lemma {:induction false} StaysInside(text: string, after: string, p: nat, room: nat, strict: bool)
    requires NoNul(text) && p <= |text| && (strict || !Dangles(text, p, room))
    ensures ReadChars(InMemory(text, after), p, room, strict) == ReadChars(text, p, room, strict)
    decreases room
  {
    hide InMemory;
    InMemoryAt(text, after, p);
    if p < |text| && text[p] != '"' && room > 0 {
      InMemoryAt(text, after, p + 1);
      if text[p] != '\\' {
        StaysInside(text, after, p + 1, room - 1, strict);
      } else if p + 1 < |text| {
        StaysInside(text, after, p + 2, room - 1, strict);
      }
    }
  }

  /** With it the loop steps over the NUL: a quote behind it closes a literal that has no end in the
      text. */
  lemma {:induction false} StepsOver(text: string, p: nat, room: nat)
    requires NoNul(text) && Dangles(text, p, room)
    ensures ReadChars(InMemory(text, "\""), p, room, false).Str?
    ensures ReadChars(text, p, room, false).NoStr?
    decreases room
  {
    var s := InMemory(text, "\"");
    assert s[p] == text[p];
    if text[p] != '\\' {
      StepsOver(text, p + 1, room - 1);
    } else if p + 1 == |text| {
      assert s[p + 1] == '\0' && s[p + 2] == '"';
      assert ReadChars(s, p + 2, room - 1, false) == Str("", p + 3);
      assert ReadChars(text, p + 2, room - 1, false) == NoStr;
    } else {
      StepsOver(text, p + 2, room - 1);
    }
  }

  /** The string loop gives the same for whatever follows the text exactly when the literal it reads
      does not end in a lone backslash at the end of the text. */
  lemma InsideIffNoLoneBackslash(text: string, p: nat, room: nat)
    requires NoNul(text) && p <= |text|
    ensures (forall after ::
              ReadChars(InMemory(text, after), p, room, false) == ReadChars(text, p, room, false)) <==>
      !Dangles(text, p, room)
  {
    hide InMemory, ReadChars, Dangles;
    if Dangles(text, p, room) {
      StepsOver(text, p, room);
    } else {
      forall after
        ensures ReadChars(InMemory(text, after), p, room, false) == ReadChars(text, p, room, false)
      {
        StaysInside(text, after, p, room, false);
      }
    }
  }

  /** A node id that is cut off after a backslash: rejected if nothing follows, accepted if the rest
      of an earlier packet does. */
  lemma CutOffAfterBackslash()
    ensures ReadStr("\"n\\", 0, 64, false) == NoStr
    ensures ReadStr(InMemory("\"n\\", "\""), 0, 64, false).Str?
  {
    var text := "\"n\\";
    assert Dangles(text, 2, 62);
    assert Dangles(text, 1, 63);
    StepsOver(text, 1, 63);
    NotSpace(text, 0);
    NotSpace(InMemory(text, "\""), 0);
    assert InMemory(text, "\"")[0] == '"';
  }
}
