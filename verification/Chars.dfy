/** Character classes of the C locale. */
module Chars {
  predicate IsUpper(c: char) { 'A' <= c <= 'Z' }

  predicate IsDigit(c: char) { '0' <= c <= '9' }

  predicate IsAlnum(c: char) { IsUpper(c) || 'a' <= c <= 'z' || IsDigit(c) }

  predicate IsPrint(c: char) { ' ' <= c <= '~' }

  function ToLower(c: char): char {
    if IsUpper(c) then c + ('a' - 'A') else c
  }

  /** The classes by character code. */
  lemma ByCode(c: char)
    ensures IsUpper(c) <==> 65 <= c as int <= 90
    ensures IsDigit(c) <==> 48 <= c as int <= 57
    ensures IsAlnum(c) <==> 48 <= c as int <= 57 || 65 <= c as int <= 90 || 97 <= c as int <= 122
    ensures IsPrint(c) <==> 32 <= c as int <= 126
    ensures ToLower(c) as int == if 65 <= c as int <= 90 then c as int + 32 else c as int
  {
  }
}
