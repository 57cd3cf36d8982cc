/**
 Character-level helpers used to normalise CSV header names and cell values:
 whitespace trimming (Python's `str.strip()` restricted to ASCII whitespace) and
 lower-casing (Python's `str.lower()` restricted to ASCII letters).

 The functions carry no postconditions; what they compute is stated by the
 lemmas after them, so that code using them is not burdened with these facts.
 */
module Text {

  /** ASCII whitespace as Python's `str.isspace` sees it: tab, line feed,
      vertical tab, form feed, carriage return, the four separators 0x1C-0x1F
      and the space. */
  predicate IsSpace(c: char)
  {
    ('\t' <= c <= '\r') || ('\U{1C}' <= c <= ' ')
  }

  predicate IsUpper(c: char)
  {
    'A' <= c <= 'Z'
  }

  /** Drops leading whitespace. */
  function TrimStart(s: string): string
  {
    if s != [] && IsSpace(s[0]) then TrimStart(s[1..]) else s
  }

  /** Drops trailing whitespace. */
  function TrimEnd(s: string): string
  {
    if s != [] && IsSpace(s[|s| - 1]) then TrimEnd(s[..|s| - 1]) else s
  }

  /** `str.strip()`. */
  function Trim(s: string): string
  {
    TrimEnd(TrimStart(s))
  }

  function LowerChar(c: char): char
  {
    if IsUpper(c) then (c as int - 'A' as int + 'a' as int) as char else c
  }

  /** `str.lower()` on ASCII letters. */
  function Lower(s: string): string
  {
    seq(|s|, i requires 0 <= i < |s| => LowerChar(s[i]))
  }

  /** TrimStart removes exactly the leading run of whitespace. */
  lemma {:induction false} TrimStartSpec(s: string)
    ensures var r := TrimStart(s);
            && |r| <= |s| && r == s[|s| - |r|..]
            && (forall i :: 0 <= i < |s| - |r| ==> IsSpace(s[i]))
            && (r == [] || !IsSpace(r[0]))
  {
    if s != [] && IsSpace(s[0]) {
      TrimStartSpec(s[1..]);
    }
  }

  /** TrimEnd removes exactly the trailing run of whitespace. */
  lemma {:induction false} TrimEndSpec(s: string)
    ensures var r := TrimEnd(s);
            && |r| <= |s| && r == s[..|r|]
            && (forall i :: |r| <= i < |s| ==> IsSpace(s[i]))
            && (r == [] || !IsSpace(r[|r| - 1]))
  {
    if s != [] && IsSpace(s[|s| - 1]) {
      TrimEndSpec(s[..|s| - 1]);
    }
  }

  /** Trim gives the infix of `s` left once the whitespace on both sides is
      removed: everything cut away is whitespace, and the result neither
      starts nor ends with whitespace. */
  lemma TrimSpec(s: string)
    ensures var r := Trim(s);
            var a := |s| - |TrimStart(s)|;
            && 0 <= a && a + |r| <= |s| && r == s[a..a + |r|]
            && (forall i :: 0 <= i < a ==> IsSpace(s[i]))
            && (forall i :: a + |r| <= i < |s| ==> IsSpace(s[i]))
            && (r == [] || (!IsSpace(r[0]) && !IsSpace(r[|r| - 1])))
  {
    TrimStartSpec(s);
    TrimEndSpec(TrimStart(s));
  }

  /** Trimming twice is trimming once. */
  lemma TrimIdempotent(s: string)
    ensures Trim(Trim(s)) == Trim(s)
  {
    var r := Trim(s);
    TrimSpec(s);
    TrimSpec(r);
    TrimStartSpec(r);
  }

  /** Lower keeps the length, leaves no upper-case letter, keeps every other
      character and maps each upper-case letter to its lower-case partner. */
  lemma LowerSpec(s: string)
    ensures var r := Lower(s);
            && |r| == |s|
            && (forall i :: 0 <= i < |s| ==> !IsUpper(r[i]))
            && (forall i :: 0 <= i < |s| && !IsUpper(s[i]) ==> r[i] == s[i])
            && (forall i :: 0 <= i < |s| && IsUpper(s[i]) ==> r[i] as int == s[i] as int + 32)
  {
  }
}
