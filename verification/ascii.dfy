/**
 * Character classes and case mapping as JavaScript sees them on the strings
 * this application handles.
 *
 * - `IsWordChar` is the regular-expression class `\w` (and the basis of `\b`),
 *   which without the `u` flag is exactly `[A-Za-z0-9_]`.
 * - `IsSpace` is the class `\s`: the ECMAScript WhiteSpace and LineTerminator
 *   code points.
 * - `ToLower` / `ToUpper` are `String.prototype.toLowerCase` / `toUpperCase`
 *   restricted to ASCII: letters outside `A-Z` / `a-z` are left unchanged.
 */
module Ascii {

  predicate IsUpper(c: char) {
    'A' <= c <= 'Z'
  }

  predicate IsLower(c: char) {
    'a' <= c <= 'z'
  }

  predicate IsDigit(c: char) {
    '0' <= c <= '9'
  }

  /** The regular-expression class `\w`. */
  predicate IsWordChar(c: char) {
    IsUpper(c) || IsLower(c) || IsDigit(c) || c == '_'
  }

  /** The regular-expression class `\s`. */
  predicate IsSpace(c: char) {
    var n := c as int;
    || n == 0x20 || 0x09 <= n <= 0x0D || n == 0xA0 || n == 0x1680
    || 0x2000 <= n <= 0x200A || n == 0x2028 || n == 0x2029 || n == 0x202F
    || n == 0x205F || n == 0x3000 || n == 0xFEFF
  }

  function ToLower(c: char): (r: char)
    ensures !IsUpper(r)
    ensures IsUpper(c) ==> IsLower(r) && r as int == c as int + 32
    ensures !IsUpper(c) ==> r == c
  {
    if IsUpper(c) then (c as int + 32) as char else c
  }

  function ToUpper(c: char): (r: char)
    ensures !IsLower(r)
    ensures IsLower(c) ==> IsUpper(r) && r as int == c as int - 32
    ensures !IsLower(c) ==> r == c
  {
    if IsLower(c) then (c as int - 32) as char else c
  }

  /** `s.toLowerCase()` */
  function Lower(s: string): (r: string)
    ensures |r| == |s|
    ensures forall i :: 0 <= i < |s| ==> r[i] == ToLower(s[i])
  {
    seq(|s|, i requires 0 <= i < |s| => ToLower(s[i]))
  }

  /** `s.toUpperCase()` */
  function Upper(s: string): (r: string)
    ensures |r| == |s|
    ensures forall i :: 0 <= i < |s| ==> r[i] == ToUpper(s[i])
  {
    seq(|s|, i requires 0 <= i < |s| => ToUpper(s[i]))
  }

  /** `a` and `b` spell the same text up to letter case. */
  predicate SameUpToCase(a: string, b: string) {
    |a| == |b| && Lower(a) == Lower(b)
  }

  predicate NoUpper(s: string) {
    forall i :: 0 <= i < |s| ==> !IsUpper(s[i])
  }

  /** Lower-casing works position by position, so it distributes over concatenation. */
  lemma LowerAppend(a: string, b: string)
    ensures Lower(a + b) == Lower(a) + Lower(b)
  {
  }

  /** Lower-casing leaves no upper-case letter and is the identity on text that has none. */
  lemma LowerCharacterisation(s: string)
    ensures NoUpper(Lower(s))
    ensures NoUpper(s) <==> Lower(s) == s
  {
    if NoUpper(s) {
      assert forall i :: 0 <= i < |s| ==> Lower(s)[i] == s[i];
    }
    if Lower(s) == s {
      assert forall i :: 0 <= i < |s| ==> !IsUpper(Lower(s)[i]);
    }
  }

  /** Lower-casing forgets every earlier case mapping. */
  lemma LowerAbsorbsCase(s: string)
    ensures Lower(Upper(s)) == Lower(s)
    ensures Lower(Lower(s)) == Lower(s)
  {
    assert forall i :: 0 <= i < |s| ==> ToLower(ToUpper(s[i])) == ToLower(s[i]);
  }
}
