/** The CSV header normaliser handed to the parser by the event detail page:
    `header.replace(/_\d+$/, "").trim()`. */
module EventHeader {
  import opened Text

  /** Length of the run of ASCII digits that ends `s`. */
  function TrailingDigitCount(s: string): (n: nat)
    ensures n <= |s|
    ensures AllDigits(s[|s| - n..])
    ensures n < |s| ==> !IsDigit(s[|s| - n - 1])
  {
    if s != [] && IsDigit(s[|s| - 1]) then
      var n := TrailingDigitCount(s[..|s| - 1]);
      assert forall k :: |s| - 1 - n <= k < |s| - 1 ==> s[k] == s[..|s| - 1][|s| - 1 - n..][k - (|s| - 1 - n)];
      n + 1
    else 0
  }

  /** `/_\d+$/` matches at index `i`: an underscore followed by one or more
      digits that run to the end of the string. */
  ghost predicate SuffixAt(s: string, i: int) {
    0 <= i < |s| - 1 && s[i] == '_' && AllDigits(s[i + 1..])
  }

  /** `header.replace(/_\d+$/, "")`: cuts the string at the match when there
      is one and leaves it alone otherwise. */
  function StripNumberSuffix(s: string): (r: string)
    ensures forall i :: SuffixAt(s, i) ==> r == s[..i]
    ensures (forall i :: !SuffixAt(s, i)) ==> r == s
  {
    var n := TrailingDigitCount(s);
    if 0 < n < |s| && s[|s| - n - 1] == '_' then
      assert SuffixAt(s, |s| - n - 1);
      assert forall i :: SuffixAt(s, i) ==> i == |s| - n - 1 by {
        forall i | SuffixAt(s, i) ensures i == |s| - n - 1 {
        }
      }
      s[..|s| - n - 1]
    else
      assert forall i :: !SuffixAt(s, i) by {
        forall i | SuffixAt(s, i) ensures false {
        }
      }
      s
  }

  /** A header whose last character is not a digit has no suffix to strip. */
  lemma NonDigitEndBlocksStrip(s: string)
    requires s != [] && !IsDigit(s[|s| - 1])
    ensures StripNumberSuffix(s) == s
  {
    forall i | 0 <= i < |s| - 1 ensures !SuffixAt(s, i) {
      assert s[i + 1..][|s| - 2 - i] == s[|s| - 1];
    }
  }

  /** `transformHeader`: strip the numeric suffix, then trim. */
  function TransformHeader(header: string): (r: string)
    ensures r == [] || (!IsJsSpace(r[0]) && !IsJsSpace(r[|r| - 1]))
    ensures forall i :: SuffixAt(header, i) ==> r == Trim(header[..i])
    ensures (forall i :: !SuffixAt(header, i)) ==> r == Trim(header)
  {
    var stripped := StripNumberSuffix(header);
    assert forall i :: SuffixAt(header, i) ==> stripped == header[..i];
    Trim(stripped)
  }

  /** A column the parser renamed `name_2`, `name_3`, ... normalises back to
      `name`, whatever the digits. */
  lemma SuffixedColumnNormalises(name: string, digits: string)
    requires name == [] || (!IsJsSpace(name[0]) && !IsJsSpace(name[|name| - 1]))
    requires digits != [] && AllDigits(digits)
    ensures TransformHeader(name + "_" + digits) == name
  {
    var s := name + "_" + digits;
    assert s[|name| + 1..] == digits;
    assert SuffixAt(s, |name|);
    assert s[..|name|] == name;
    TrimOfTrimmed(name);
  }

  /** Only one suffix is removed: `a_1_2` becomes `a_1`. */
  lemma StripsOnlyOneSuffix()
    ensures TransformHeader("a_1_2") == "a_1"
  {
    assert "a_1" + "_" + "2" == "a_1_2";
    SuffixedColumnNormalises("a_1", "2");
  }

  /** Hence the transform is not idempotent. */
  lemma TransformHeaderNotIdempotent()
    ensures TransformHeader(TransformHeader("a_1_2")) != TransformHeader("a_1_2")
  {
    StripsOnlyOneSuffix();
    FirstSuffixNormalises();
    assert |"a"| != |"a_1"|;
  }

  lemma FirstSuffixNormalises()
    ensures TransformHeader("a_1") == "a"
  {
    assert "a" + "_" + "1" == "a_1";
    SuffixedColumnNormalises("a", "1");
  }

  /** A trailing space blocks the strip, and the trim comes after it:
      `"title_2 "` becomes `"title_2"`. */
  lemma TrailingSpaceBlocksStrip()
    ensures TransformHeader("title_2 ") == "title_2"
  {
    var s := "title_2 ";
    NonDigitEndBlocksStrip(s);
    assert !IsJsSpace(s[0]) && IsJsSpace(s[7]) && !IsJsSpace(s[6]);
    assert TrimStart(s) == s;
    assert TrimEnd(s) == TrimEnd(s[..7]) == s[..7];
    assert StripNumberSuffix(s) == s;
    assert Trim(s) == s[..7];
    assert s[..7] == "title_2";
  }

  /** The ordinary case: `title_2` becomes `title`. */
  lemma NumberedTitleNormalises()
    ensures TransformHeader("title_2") == "title"
  {
    assert "title" + "_" + "2" == "title_2";
    SuffixedColumnNormalises("title", "2");
  }
}
