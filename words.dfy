/**
 * ASCII word normalisation shared by the question-answering and the parsing programs:
 * a token is kept only when it holds an ASCII letter, and it is kept lower-cased.
 */
module Words {
  import opened Wrappers

  predicate IsUpper(c: char) { 'A' <= c <= 'Z' }

  predicate IsLower(c: char) { 'a' <= c <= 'z' }

  predicate IsLetter(c: char) { IsUpper(c) || IsLower(c) }

  /** ASCII lower-casing of one character: 'A'..'Z' move to 'a'..'z', all else is kept. */
  function Lower(c: char): (r: char)
    ensures !IsUpper(r)
    ensures IsLetter(r) <==> IsLetter(c)
    ensures IsUpper(c) ==> r as int == c as int + 32
    ensures !IsUpper(c) ==> r == c
  {
    if IsUpper(c) then (c as int - 'A' as int + 'a' as int) as char else c
  }

  predicate HasLetter(s: string) {
    exists i :: 0 <= i < |s| && IsLetter(s[i])
  }

  predicate NoUpper(s: string) {
    forall i :: 0 <= i < |s| ==> !IsUpper(s[i])
  }

  function LowerAll(s: string): (r: string)
    ensures |r| == |s|
    ensures forall i :: 0 <= i < |s| ==> r[i] == Lower(s[i])
  {
    seq(|s|, i requires 0 <= i < |s| => Lower(s[i]))
  }

  /**
   * The normalisation both programs compute: `None` for a token without an ASCII letter,
   * otherwise the token with every upper-case ASCII letter lowered and all else copied.
   */
  function Normalise(s: string): Option<string> {
    if HasLetter(s) then Some(LowerAll(s)) else None
  }

  /** A normalised word holds no upper-case ASCII letter and still holds a letter. */
  lemma NormaliseShape(s: string)
    ensures Normalise(s).None? <==> !HasLetter(s)
    ensures Normalise(s).Some? ==> NoUpper(Normalise(s).value) && HasLetter(Normalise(s).value)
    ensures Normalise(s).Some? ==> |Normalise(s).value| == |s|
  {
    if HasLetter(s) {
      var i :| 0 <= i < |s| && IsLetter(s[i]);
      assert IsLetter(LowerAll(s)[i]);
    }
  }

  /** Normalising an already normalised word gives it back. */
  lemma NormaliseIdempotent(s: string)
    requires Normalise(s).Some?
    ensures Normalise(Normalise(s).value) == Normalise(s)
  {
    var w := Normalise(s).value;
    NormaliseShape(s);
    assert LowerAll(w) == w;
  }
}
