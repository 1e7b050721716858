/** The .NET string operations the pipeline relies on:
    `char.IsWhiteSpace`, `string.IsNullOrWhiteSpace` and `string.Trim()`. */
module Strings {
  import opened Wrappers

  /** `char.IsWhiteSpace` for UTF-16 code units: the control characters
      U+0009..U+000D and U+0085 and the Unicode space, line and paragraph
      separators. */
  predicate IsWhiteSpace(c: char) {
    var k := c as int;
    (0x09 <= k <= 0x0D) || k == 0x20 || k == 0x85 || k == 0xA0 || k == 0x1680 ||
    (0x2000 <= k <= 0x200A) || k == 0x2028 || k == 0x2029 || k == 0x202F ||
    k == 0x205F || k == 0x3000
  }

  /** Every character of `s` is white space (true of the empty string). */
  predicate AllWhiteSpace(s: string) {
    forall i :: 0 <= i < |s| ==> IsWhiteSpace(s[i])
  }

  /** `string.IsNullOrWhiteSpace`: null, empty, or white space only. */
  predicate IsNullOrWhiteSpace(s: Option<string>) {
    s.None? || AllWhiteSpace(s.value)
  }

  /** Drops the leading white space of `s`. */
  function TrimStart(s: string): (r: string)
    ensures |r| <= |s| && r == s[|s| - |r|..]
    ensures AllWhiteSpace(s[..|s| - |r|])
    ensures r == [] || !IsWhiteSpace(r[0])
  {
    if s == [] || !IsWhiteSpace(s[0]) then s
    else
      var r := TrimStart(s[1..]);
      assert s[1..][..|s| - 1 - |r|] == s[1..|s| - |r|];
      r
  }

  /** Drops the trailing white space of `s`. */
  function TrimEnd(s: string): (r: string)
    ensures |r| <= |s| && r == s[..|r|]
    ensures AllWhiteSpace(s[|r|..])
    ensures r == [] || !IsWhiteSpace(r[|r| - 1])
  {
    if s == [] || !IsWhiteSpace(s[|s| - 1]) then s
    else
      var r := TrimEnd(s[..|s| - 1]);
      assert s[..|s| - 1][|r|..] == s[|r|..|s| - 1];
      r
  }

  /** `string.Trim()`: removes white space at both ends, keeping what lies
      between untouched. */
  function Trim(s: string): (r: string)
    ensures exists i, j :: 0 <= i <= j <= |s| && r == s[i..j] &&
                           AllWhiteSpace(s[..i]) && AllWhiteSpace(s[j..])
    ensures r == [] || (!IsWhiteSpace(r[0]) && !IsWhiteSpace(r[|r| - 1]))
  {
    var t := TrimStart(s);
    var r := TrimEnd(t);
    var i := |s| - |t|;
    assert r == s[i..i + |r|];
    assert s[i + |r|..] == t[|r|..];
    r
  }

  /** A blank string has nothing left after its leading white space. */
  lemma {:induction false} TrimStartOfBlank(s: string)
    requires AllWhiteSpace(s)
    ensures TrimStart(s) == []
  {
    if s != [] {
      TrimStartOfBlank(s[1..]);
    }
  }

  /** A string with some non-white character keeps it after `TrimStart`. */
  lemma {:induction false} TrimStartOfNonBlank(s: string, k: nat)
    requires k < |s| && !IsWhiteSpace(s[k])
    ensures TrimStart(s) != []
  {
    if IsWhiteSpace(s[0]) {
      TrimStartOfNonBlank(s[1..], k - 1);
    }
  }

  /** `TrimEnd` keeps a leading non-white character. */
  lemma {:induction false} TrimEndKeepsFirst(t: string)
    requires t != [] && !IsWhiteSpace(t[0])
    ensures TrimEnd(t) != []
  {
    if |t| > 1 && IsWhiteSpace(t[|t| - 1]) {
      TrimEndKeepsFirst(t[..|t| - 1]);
    }
  }

  /** Trimming leaves nothing exactly when the string is blank, so the two
      .NET tests agree on which strings carry no content. */
  lemma TrimEmptyIffBlank(s: string)
    ensures Trim(s) == [] <==> IsNullOrWhiteSpace(Some(s))
  {
    if AllWhiteSpace(s) {
      TrimStartOfBlank(s);
    } else {
      var k :| 0 <= k < |s| && !IsWhiteSpace(s[k]);
      TrimStartOfNonBlank(s, k);
      TrimEndKeepsFirst(TrimStart(s));
    }
  }

  /** Leading white space is invisible to `TrimStart`. */
  lemma {:induction false} TrimStartPadded(pad: string, s: string)
    requires AllWhiteSpace(pad)
    ensures TrimStart(pad + s) == TrimStart(s)
  {
    if pad != [] {
      assert (pad + s)[0] == pad[0];
      assert (pad + s)[1..] == pad[1..] + s;
      TrimStartPadded(pad[1..], s);
    } else {
      assert pad + s == s;
    }
  }

  /** Trailing white space is invisible to `TrimEnd`. */
  lemma {:induction false} TrimEndPadded(s: string, pad: string)
    requires AllWhiteSpace(pad)
    ensures TrimEnd(s + pad) == TrimEnd(s)
  {
    if pad != [] {
      assert (s + pad)[|s + pad| - 1] == pad[|pad| - 1];
      assert (s + pad)[..|s + pad| - 1] == s + pad[..|pad| - 1];
      TrimEndPadded(s, pad[..|pad| - 1]);
    } else {
      assert s + pad == s;
    }
  }

  /** Dropping trailing white space does not change where leading white space ends. */
  lemma {:induction false} TrimStartOfPaddedEnd(s: string, pad: string)
    requires AllWhiteSpace(pad)
    ensures TrimEnd(TrimStart(s + pad)) == TrimEnd(TrimStart(s))
  {
    if s == [] {
      assert s + pad == pad;
      TrimStartPadded(pad, []);
      assert pad + [] == pad;
    } else if IsWhiteSpace(s[0]) {
      assert (s + pad)[0] == s[0];
      assert (s + pad)[1..] == s[1..] + pad;
      TrimStartOfPaddedEnd(s[1..], pad);
    } else {
      assert (s + pad)[0] == s[0];
      TrimEndPadded(s, pad);
    }
  }

  /** Surrounding a string with white space never changes what `Trim`
      returns. */
  lemma TrimIgnoresPadding(left: string, s: string, right: string)
    requires AllWhiteSpace(left) && AllWhiteSpace(right)
    ensures Trim(left + s + right) == Trim(s)
  {
    calc {
      Trim(left + s + right);
      { assert left + s + right == left + (s + right); }
      Trim(left + (s + right));
      TrimEnd(TrimStart(left + (s + right)));
      { TrimStartPadded(left, s + right); }
      TrimEnd(TrimStart(s + right));
      { TrimStartOfPaddedEnd(s, right); }
      TrimEnd(TrimStart(s));
      Trim(s);
    }
  }

  /** Surrounding a string with white space never changes whether it is blank. */
  lemma BlankIgnoresPadding(left: string, s: string, right: string)
    requires AllWhiteSpace(left) && AllWhiteSpace(right)
    ensures IsNullOrWhiteSpace(Some(left + s + right)) == IsNullOrWhiteSpace(Some(s))
  {
    TrimIgnoresPadding(left, s, right);
    TrimEmptyIffBlank(left + s + right);
    TrimEmptyIffBlank(s);
  }
}
