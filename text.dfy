/** The JavaScript string primitives the pages rely on, over `seq<char>`:
    digit filtering, `trim`, ASCII `toLowerCase` and `includes`. */
module Text {

  predicate IsDigit(c: char) {
    '0' <= c <= '9'
  }

  predicate AllDigits(s: string) {
    forall i :: 0 <= i < |s| ==> IsDigit(s[i])
  }

  /** `s.replace(/[^0-9]/g, "")`: the ASCII digits of `s`, in order. */
  function DigitsOf(s: string): (r: string)
    ensures AllDigits(r)
    ensures |r| <= |s|
    ensures AllDigits(s) ==> r == s
  {
    if s == [] then []
    else (if IsDigit(s[0]) then [s[0]] else []) + DigitsOf(s[1..])
  }

  /** Filtering digits commutes with concatenation. */
  lemma {:induction false} DigitsOfAppend(a: string, b: string)
    ensures DigitsOf(a + b) == DigitsOf(a) + DigitsOf(b)
  {
    if a == [] {
      assert a + b == b;
    } else {
      assert (a + b)[1..] == a[1..] + b;
      DigitsOfAppend(a[1..], b);
    }
  }

  /** A character that is not a digit leaves no trace in the digits. */
  lemma SkipNonDigit(a: string, c: char, b: string)
    requires !IsDigit(c)
    ensures DigitsOf(a + [c] + b) == DigitsOf(a) + DigitsOf(b)
  {
    DigitsOfAppend(a + [c], b);
    DigitsOfAppend(a, [c]);
    assert DigitsOf([c]) == DigitsOf([c][1..]);
  }

  function Pow10(n: nat): (p: nat)
    ensures p >= 1
  {
    if n == 0 then 1 else 10 * Pow10(n - 1)
  }

  /** `parseInt` of a string made only of ASCII digits. */
  function DecimalValue(s: string): (n: nat)
    requires AllDigits(s)
    ensures n < Pow10(|s|)
  {
    if s == [] then 0
    else 10 * DecimalValue(s[..|s| - 1]) + (s[|s| - 1] as int - '0' as int)
  }

  /** The code points JavaScript's `trim` removes: WhiteSpace (TAB, VT, FF,
      ZWNBSP and every Zs space) and LineTerminator (LF, CR, LS, PS). */
  predicate IsJsSpace(c: char) {
    || c == '\t' || c == '\n' || c == '\U{B}' || c == '\U{C}' || c == '\r'
    || c == ' ' || c == '\U{A0}' || c == '\U{1680}'
    || ('\U{2000}' <= c <= '\U{200A}')
    || c == '\U{2028}' || c == '\U{2029}' || c == '\U{202F}' || c == '\U{205F}'
    || c == '\U{3000}' || c == '\U{FEFF}'
  }

  /** Drops the leading white space of `s`. */
  function TrimStart(s: string): (r: string)
    ensures |r| <= |s| && r == s[|s| - |r|..]
    ensures forall i :: 0 <= i < |s| - |r| ==> IsJsSpace(s[i])
    ensures r == [] || !IsJsSpace(r[0])
  {
    if s != [] && IsJsSpace(s[0]) then TrimStart(s[1..]) else s
  }

  /** Drops the trailing white space of `s`. */
  function TrimEnd(s: string): (r: string)
    ensures |r| <= |s| && r == s[..|r|]
    ensures forall i :: |r| <= i < |s| ==> IsJsSpace(s[i])
    ensures r == [] || !IsJsSpace(r[|r| - 1])
  {
    if s != [] && IsJsSpace(s[|s| - 1]) then TrimEnd(s[..|s| - 1]) else s
  }

  /** `r` is what remains of `s` once the white space before index `i`
      and after index `i + |r|` is cut off. */
  ghost predicate CutAt(s: string, r: string, i: int) {
    && 0 <= i <= |s| - |r| && r == s[i..i + |r|]
    && (forall k :: 0 <= k < i ==> IsJsSpace(s[k]))
    && (forall k :: i + |r| <= k < |s| ==> IsJsSpace(s[k]))
  }

  /** `s.trim()`: the result is a slice of `s` that neither starts nor ends
      with white space, and everything cut off is white space. */
  function Trim(s: string): (r: string)
    ensures exists i :: CutAt(s, r, i)
    ensures r == [] || (!IsJsSpace(r[0]) && !IsJsSpace(r[|r| - 1]))
  {
    var t := TrimStart(s);
    var r := TrimEnd(t);
    assert CutAt(s, r, |s| - |t|);
    r
  }

  /** A string with no white space at either end is its own trim. */
  lemma TrimOfTrimmed(s: string)
    requires s == [] || (!IsJsSpace(s[0]) && !IsJsSpace(s[|s| - 1]))
    ensures Trim(s) == s
  {
    var r := Trim(s);
    var i :| CutAt(s, r, i);
    if s != [] {
      assert i == 0;
      assert i + |r| == |s|;
    }
  }

  /** ASCII-only `toLowerCase` of one character. */
  function LowerChar(c: char): char {
    if 'A' <= c <= 'Z' then (c as int + 32) as char else c
  }

  /** `s.toLowerCase()` restricted to ASCII letters. */
  function ToLower(s: string): (r: string)
    ensures |r| == |s|
  {
    seq(|s|, i requires 0 <= i < |s| => LowerChar(s[i]))
  }

  /** Lowering commutes with taking a slice. */
  lemma ToLowerSlice(s: string, i: nat, j: nat)
    requires i <= j <= |s|
    ensures ToLower(s)[i..j] == ToLower(s[i..j])
  {
  }

  /** `key` occurs in `text` starting at index `i`. */
  ghost predicate OccursAt(text: string, key: string, i: int) {
    0 <= i && i + |key| <= |text| && text[i..i + |key|] == key
  }

  /** `text.includes(key)`. */
  function Contains(text: string, key: string): (found: bool)
    ensures found <==> exists i :: OccursAt(text, key, i)
  {
    if |key| > |text| then false
    else if text[..|key|] == key then (assert OccursAt(text, key, 0); true)
    else
      var rest := Contains(text[1..], key);
      assert forall i :: OccursAt(text, key, i) && i > 0 ==> OccursAt(text[1..], key, i - 1);
      assert forall i :: OccursAt(text[1..], key, i) ==> OccursAt(text, key, i + 1);
      rest
  }

  /** An occurrence of `key` in `text` is still found after both are
      lowered: case never hides a match. */
  lemma ContainsLowered(text: string, key: string)
    requires Contains(text, key)
    ensures Contains(ToLower(text), ToLower(key))
  {
    var i :| OccursAt(text, key, i);
    ToLowerSlice(text, i, i + |key|);
    assert OccursAt(ToLower(text), ToLower(key), i);
  }
}
