/** The case mapping the catalog applies to genres (`String.toUpperCase`), on ASCII letters. */
module Text {

  predicate IsLowerAscii(c: char) {
    'a' <= c <= 'z'
  }

  /** The upper-case form of one character: ASCII letters move up, all else stays. */
  function UpperChar(c: char): (u: char)
    ensures IsLowerAscii(c) ==> 'A' <= u <= 'Z' && u as int == c as int - 32
    ensures !IsLowerAscii(c) ==> u == c
  {
    if IsLowerAscii(c) then (c as int - 32) as char else c
  }

  /** `s.toUpperCase()` restricted to ASCII: character by character, length preserved. */
  function ToUpperAscii(s: string): (r: string)
    ensures |r| == |s|
    ensures forall i :: 0 <= i < |s| ==> r[i] == UpperChar(s[i])
    ensures forall i :: 0 <= i < |r| ==> !IsLowerAscii(r[i])
  {
    if s == [] then [] else [UpperChar(s[0])] + ToUpperAscii(s[1..])
  }

  /** Upper-casing twice is upper-casing once, so a re-saved genre is stable. */
  lemma ToUpperIdempotent(s: string)
    ensures ToUpperAscii(ToUpperAscii(s)) == ToUpperAscii(s)
  {
    var u := ToUpperAscii(s);
    assert forall i :: 0 <= i < |u| ==> UpperChar(u[i]) == u[i];
  }
}
