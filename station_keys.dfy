/** The key under which a station name is looked up: the name with every character that
    is not an ASCII letter removed and the letters upper-cased, so that "King's Cross
    St. Pancras" and "kings cross st pancras" are the same station. */
module StationKeys {

  predicate IsLetter(c: char) {
    'A' <= c <= 'Z' || 'a' <= c <= 'z'
  }

  predicate IsUpper(c: char) {
    'A' <= c <= 'Z'
  }

  /** The ASCII upper-casing of `toUpperCase`: a lower-case letter becomes its capital,
      32 code points below it, and every other character is kept. */
  function ToUpper(c: char): (r: char)
    ensures IsLetter(c) ==> IsUpper(r)
    ensures 'a' <= c <= 'z' ==> r as int == c as int - 32
    ensures !('a' <= c <= 'z') ==> r == c
  {
    if 'a' <= c <= 'z' then (c as int - 'a' as int + 'A' as int) as char else c
  }

  /** Two characters a key cannot tell apart: the same character, or the same letter in
      either case. */
  predicate SameLetter(c: char, d: char) {
    c == d || (IsLetter(c) && IsLetter(d) && ToUpper(c) == ToUpper(d))
  }

  /** Removing the runs of non-letters, then upper-casing. */
  function Normalize(s: string): (r: string)
    ensures |r| <= |s|
  {
    if s == [] then []
    else if IsLetter(s[0]) then [ToUpper(s[0])] + Normalize(s[1..])
    else Normalize(s[1..])
  }

  /** A key consists of upper-case letters only. */
  lemma {:induction false} NormalizeUpper(s: string)
    ensures forall i :: 0 <= i < |Normalize(s)| ==> IsUpper(Normalize(s)[i])
  {
    if s != [] {
      NormalizeUpper(s[1..]);
    }
  }

  lemma {:induction false} NormalizeAppend(a: string, b: string)
    ensures Normalize(a + b) == Normalize(a) + Normalize(b)
  {
    if a == [] {
      assert a + b == b;
    } else {
      assert (a + b)[0] == a[0] && (a + b)[1..] == a[1..] + b;
      NormalizeAppend(a[1..], b);
    }
  }

  /** A key is its own key. */
  lemma {:induction false} NormalizeKey(s: string)
    requires forall i :: 0 <= i < |s| ==> IsUpper(s[i])
    ensures Normalize(s) == s
  {
    if s != [] {
      NormalizeKey(s[1..]);
      assert [s[0]] + s[1..] == s;
    }
  }

  lemma NormalizeIdempotent(s: string)
    ensures Normalize(Normalize(s)) == Normalize(s)
  {
    NormalizeUpper(s);
    NormalizeKey(Normalize(s));
  }

  /** Case does not matter. */
  lemma {:induction false} IgnoresCase(s: string, t: string)
    requires |s| == |t| && forall i :: 0 <= i < |s| ==> SameLetter(s[i], t[i])
    ensures Normalize(s) == Normalize(t)
  {
    if s != [] {
      assert forall i :: 0 <= i < |s[1..]| ==> s[1..][i] == s[i + 1] && t[1..][i] == t[i + 1];
      IgnoresCase(s[1..], t[1..]);
    }
  }

  /** A string of non-letters has the empty key. */
  lemma {:induction false} NonLettersVanish(t: string)
    requires forall i :: 0 <= i < |t| ==> !IsLetter(t[i])
    ensures Normalize(t) == []
  {
    if t != [] {
      assert forall i :: 0 <= i < |t[1..]| ==> t[1..][i] == t[i + 1];
      NonLettersVanish(t[1..]);
    }
  }

  /** Non-letters inserted anywhere do not change the key. */
  lemma IgnoresNonLetters(a: string, t: string, b: string)
    requires forall i :: 0 <= i < |t| ==> !IsLetter(t[i])
    ensures Normalize(a + t + b) == Normalize(a + b)
  {
    NormalizeAppend(a + t, b);
    NormalizeAppend(a, t);
    NormalizeAppend(a, b);
    NonLettersVanish(t);
  }
}
