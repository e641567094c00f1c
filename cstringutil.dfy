/**
 * C strings and the plugin-name rule of include/iplugin.h.
 *
 * A C string is modelled by its characters: scanning stops at the first NUL,
 * or at the end of the sequence, which stands for the terminator.
 */
module CStringUtil {

  const NUL: char := '\0'

  /** The text of a C string: characters with no NUL among them. */
  type CText = s: string | NUL !in s

  /** `strlen`: the number of characters before the terminator. */
  function CLen(s: string): (n: nat)
    ensures n <= |s|
    ensures forall i :: 0 <= i < n ==> s[i] != NUL
    ensures n < |s| ==> s[n] == NUL
  {
    if |s| == 0 || s[0] == NUL then 0 else 1 + CLen(s[1..])
  }

  /** What `std::string(const char*)` and `strdup` keep of a character buffer. */
  function TextOf(s: string): (t: CText)
    ensures |t| == CLen(s) && t == s[..|t|]
  {
    s[..CLen(s)]
  }

  lemma {:induction false} TextOfText(t: CText)
    ensures TextOf(t) == t
  {
    if |t| > 0 {
      var rest: CText := t[1..];
      TextOfText(rest);
    }
  }

  /** `CStringUtil::contains`: a character found is never the terminator, and is in the buffer. */
  function Contains(str: string, c: char): (found: bool)
    ensures found ==> c != NUL && c in str
  {
    if |str| == 0 || str[0] == NUL then false
    else if str[0] == c then true
    else Contains(str[1..], c)
  }

  /** `CStringUtil::containsOnly`: a refusal names a character of the text that `allowed` lacks. */
  function ContainsOnly(str: string, allowed: string): (all: bool)
    ensures !all ==> exists c :: c in str && c != NUL && !Contains(allowed, c)
  {
    if |str| == 0 || str[0] == NUL then true
    else if Contains(allowed, str[0]) then ContainsOnly(str[1..], allowed)
    else false
  }

  /** `contains(str, c)` holds iff `c` occurs before the terminator. */
  lemma {:induction false} ContainsMeaning(str: string, c: char)
    ensures Contains(str, c) <==> exists i :: 0 <= i < CLen(str) && str[i] == c
  {
    if |str| == 0 || str[0] == NUL {
    } else if str[0] == c {
      assert str[0] == c;
    } else {
      ContainsMeaning(str[1..], c);
      if Contains(str, c) {
        var i :| 0 <= i < CLen(str[1..]) && str[1..][i] == c;
        assert str[i + 1] == c;
      }
      if exists i :: 0 <= i < CLen(str) && str[i] == c {
        var i :| 0 <= i < CLen(str) && str[i] == c;
        assert i > 0 && str[1..][i - 1] == c;
      }
    }
  }

  /** Scanning stops at the terminator, so a NUL is never found. */
  lemma NeverContainsNul(str: string)
    ensures !Contains(str, NUL)
  {
    ContainsMeaning(str, NUL);
  }

  /** Over text without NUL, `contains` is plain membership. */
  lemma TextContains(t: CText, c: char)
    ensures Contains(t, c) <==> c in t
  {
    ContainsMeaning(t, c);
    TextOfText(t);
  }

  /** `containsOnly(str, allowed)` holds iff every character before the terminator is allowed. */
  lemma {:induction false} ContainsOnlyMeaning(str: string, allowed: string)
    ensures ContainsOnly(str, allowed) <==> forall i :: 0 <= i < CLen(str) ==> Contains(allowed, str[i])
  {
    if |str| == 0 || str[0] == NUL {
    } else {
      ContainsOnlyMeaning(str[1..], allowed);
      assert forall i :: 0 <= i < CLen(str[1..]) ==> str[1..][i] == str[i + 1];
      if !Contains(allowed, str[0]) {
        assert !Contains(allowed, str[0 as nat]);
      }
    }
  }

  const Uppers: string := "ABCDEFGHIJKLMNOPQRSTUVWXYZ"
  const Lowers: string := "abcdefghijklmnopqrstuvwxyz"
  const Digits: string := "0123456789"

  /** The characters `JP_REGISTER_PLUGIN` accepts in a plugin name, in the order the macro spells them. */
  const IdentifierChars: string := Uppers + Lowers + Digits + "_"

  /** `*name`: the first character, which is the terminator for the empty name. */
  function FirstChar(name: string): char
  {
    if |name| == 0 then NUL else name[0]
  }

  /**
   * The two compile-time checks of `JP_REGISTER_PLUGIN` on the stringified
   * name: an accepted name does not start with a digit.
   */
  predicate NameAccepted(name: CText)
    ensures NameAccepted(name) && |name| > 0 ==> !('0' <= name[0] <= '9')
  {
    DigitsAre(FirstChar(name));
    TextContains(Digits, FirstChar(name));
    ContainsOnly(name, IdentifierChars) && !Contains(Digits, FirstChar(name))
  }

  predicate IsIdentifierChar(c: char)
  {
    ('A' <= c <= 'Z') || ('a' <= c <= 'z') || ('0' <= c <= '9') || c == '_'
  }

  lemma UppersAre(c: char)
    ensures c in Uppers <==> 'A' <= c <= 'Z'
  {
    if 'A' <= c <= 'Z' {
      assert Uppers[c as int - 'A' as int] == c;
    }
  }

  lemma LowersAre(c: char)
    ensures c in Lowers <==> 'a' <= c <= 'z'
  {
    if 'a' <= c <= 'z' {
      assert Lowers[c as int - 'a' as int] == c;
    }
  }

  lemma DigitsAre(c: char)
    ensures c in Digits <==> '0' <= c <= '9'
  {
    if '0' <= c <= '9' {
      assert Digits[c as int - '0' as int] == c;
    }
  }

  lemma IdentifierCharsAre(c: char)
    ensures c in IdentifierChars <==> IsIdentifierChar(c)
  {
    UppersAre(c);
    LowersAre(c);
    DigitsAre(c);
    assert c in IdentifierChars <==> c in Uppers || c in Lowers || c in Digits || c == '_';
  }

  /**
   * A name is accepted iff it is made of letters, digits and '_' and does not
   * start with a digit, like a C identifier; the empty name passes both checks.
   */
  lemma NameAcceptedMeaning(name: CText)
    ensures NameAccepted(name) <==>
              (forall i :: 0 <= i < |name| ==> IsIdentifierChar(name[i])) &&
              (|name| == 0 || !('0' <= name[0] <= '9'))
  {
    TextOfText(name);
    ContainsOnlyMeaning(name, IdentifierChars);
    IdentifierCharsAre(NUL);
    var ids: CText := IdentifierChars;
    forall i | 0 <= i < |name|
      ensures Contains(IdentifierChars, name[i]) <==> IsIdentifierChar(name[i])
    {
      TextContains(ids, name[i]);
      IdentifierCharsAre(name[i]);
    }
    NeverContainsNul(Digits);
    if |name| > 0 {
      DigitsAre(NUL);
      var digits: CText := Digits;
      TextContains(digits, name[0]);
      DigitsAre(name[0]);
    }
  }
}
