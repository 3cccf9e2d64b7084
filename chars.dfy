/**
 * Character classes used by the two tokenisers.  The Unicode tables behind
 * Python's `\w`, `str.isalpha` and `str.lower` are restricted to ASCII and
 * U+0400..U+045F, the first 96 code points of the Cyrillic block
 * (U+0400..U+04FF): the Russian alphabet with Ѐ..Џ and ѐ..џ.  Every other
 * character counts as neither a letter nor a digit and is left unchanged by
 * lower-casing; that includes accented Latin letters, the Cyrillic letters
 * from U+0460 on and non-ASCII digits, all of which Python's `\w` matches.
 * The whitespace class is the full set that `str.split()` separates on.
 */
module Chars {

  predicate IsAsciiUpper(c: char) { 'A' <= c <= 'Z' }
  predicate IsAsciiLower(c: char) { 'a' <= c <= 'z' }

  /** Cyrillic capitals: U+0400..U+042F (Ѐ..Я, including Ё). */
  predicate IsCyrillicUpper(c: char) { '\U{0400}' <= c <= '\U{042F}' }
  /** Cyrillic small letters: U+0430..U+045F (а..я, ѐ..џ, including ё). */
  predicate IsCyrillicLower(c: char) { '\U{0430}' <= c <= '\U{045F}' }

  predicate IsUpper(c: char) { IsAsciiUpper(c) || IsCyrillicUpper(c) }

  /** `str.isalpha` on one character. */
  predicate IsAlpha(c: char) {
    IsAsciiUpper(c) || IsAsciiLower(c) || IsCyrillicUpper(c) || IsCyrillicLower(c)
  }

  predicate IsDigit(c: char) { '0' <= c <= '9' }

  /** The regular-expression class `\w`: letters, digits and the underscore. */
  predicate IsWordChar(c: char) { IsAlpha(c) || IsDigit(c) || c == '_' }

  /** The characters `str.split()` with no argument separates on. */
  predicate IsSpace(c: char) {
    || c == ' '
    || '\t' <= c <= '\r'
    || '\U{001C}' <= c <= '\U{001F}'
    || c == '\U{0085}' || c == '\U{00A0}' || c == '\U{1680}'
    || '\U{2000}' <= c <= '\U{200A}'
    || c == '\U{2028}' || c == '\U{2029}' || c == '\U{202F}' || c == '\U{205F}'
    || c == '\U{3000}'
  }

  predicate NotSpace(c: char) { !IsSpace(c) }

  /**
   * Membership in Python's `string.punctuation`, the 32 printable ASCII
   * characters that are neither letters, digits nor space:
   * ! " # $ % & ' ( ) * + , - . / : ; < = > ? @ [ \ ] ^ _ ` { | } ~
   */
  predicate IsPunctuation(c: char) {
    || '!' <= c <= '/'
    || ':' <= c <= '@'
    || '[' <= c <= '`'
    || '{' <= c <= '~'
  }

  predicate NotPunctuation(c: char) { !IsPunctuation(c) }

  /** `str.lower` on one character of the modelled alphabet. */
  function Lower(c: char): (l: char)
    ensures !IsUpper(l)
    ensures IsUpper(c) || l == c
    ensures IsAlpha(l) == IsAlpha(c) && IsWordChar(l) == IsWordChar(c)
    ensures IsSpace(l) == IsSpace(c) && IsPunctuation(l) == IsPunctuation(c)
  {
    if IsAsciiUpper(c) then (c as int + 32) as char
    else if '\U{0400}' <= c <= '\U{040F}' then (c as int + 80) as char
    else if IsCyrillicUpper(c) then (c as int + 32) as char
    else c
  }

  /** A character that `Lower` leaves unchanged. */
  predicate IsLowercase(c: char) { Lower(c) == c }

  lemma LowerIsLowercase(c: char)
    ensures IsLowercase(Lower(c))
  {
  }
}
