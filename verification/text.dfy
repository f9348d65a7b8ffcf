/** Character classes and small text conversions the service relies on:
    Python's `str.strip()`, decimal rendering of integers, and the value of
    the first run of digits in a string (what `re.findall(r'\d+', s)[0]`
    followed by `int()` computes). */
module Text {

  /** A decimal digit. The `\d` class is read as the ASCII digits only. */
  predicate IsDigit(c: char) {
    '0' <= c <= '9'
  }

  function DigitValue(c: char): (v: nat)
    requires IsDigit(c)
    ensures v < 10
  {
    c as int - '0' as int
  }

  function DigitChar(v: nat): (c: char)
    requires v < 10
    ensures IsDigit(c) && DigitValue(c) == v
  {
    ('0' as int + v) as char
  }

  predicate AllDigits(s: string) {
    forall i :: 0 <= i < |s| ==> IsDigit(s[i])
  }

  predicate NoDigits(s: string) {
    forall i :: 0 <= i < |s| ==> !IsDigit(s[i])
  }

  /** Python's `int()` of a run of decimal digits, most significant first. */
  function DecimalValue(s: string): nat
    requires AllDigits(s)
  {
    if |s| == 0 then 0 else 10 * DecimalValue(s[..|s| - 1]) + DigitValue(s[|s| - 1])
  }

  /** Python's `str()` of a non-negative integer: the shortest decimal
      rendering, which reads back as the same number. */
  function NatToDecimal(n: nat): (s: string)
    ensures |s| > 0 && AllDigits(s)
    ensures s[0] != '0' || s == "0"
    ensures DecimalValue(s) == n
  {
    if n < 10 then [DigitChar(n)]
    else
      var init := NatToDecimal(n / 10);
      var s := init + [DigitChar(n % 10)];
      assert s[..|s| - 1] == init;
      s
  }

  /** The longest prefix of `s` made of digits. */
  function DigitPrefix(s: string): (p: string)
    ensures |p| <= |s| && p == s[..|p|] && AllDigits(p)
    ensures |p| == |s| || !IsDigit(s[|p|])
  {
    if |s| == 0 || !IsDigit(s[0]) then [] else [s[0]] + DigitPrefix(s[1..])
  }

  /** The value of the first maximal run of digits in `s`, or 0 when `s`
      holds no digit. */
  function FirstNumber(s: string): (n: nat)
    ensures NoDigits(s) ==> n == 0
  {
    if |s| == 0 then 0
    else if IsDigit(s[0]) then DecimalValue(DigitPrefix(s))
    else FirstNumber(s[1..])
  }

  /** `FirstNumber` reads exactly the first maximal digit run: if `s[i..j]`
      is a run of digits with no digit before it and a non-digit (or the end)
      after it, the key is that run's value. */
  lemma {:induction false} FirstNumberOfRun(s: string, i: nat, j: nat)
    requires i < j <= |s|
    requires NoDigits(s[..i]) && AllDigits(s[i..j])
    requires j == |s| || !IsDigit(s[j])
    ensures FirstNumber(s) == DecimalValue(s[i..j])
  {
    if i == 0 {
      assert forall k :: 0 <= k < j ==> IsDigit(s[k]) by {
        forall k | 0 <= k < j ensures IsDigit(s[k]) {
          assert s[i..j][k] == s[k];
        }
      }
      var p := DigitPrefix(s);
      assert |p| == j;
      assert p == s[i..j];
    } else {
      assert !IsDigit(s[0]) by { assert s[..i][0] == s[0]; }
      var t := s[1..];
      assert t[..i - 1] == s[1..i];
      var u := t[..i - 1];
      assert NoDigits(u) by {
        forall k | 0 <= k < |u| ensures !IsDigit(u[k]) {
          assert u[k] == s[..i][k + 1];
        }
      }
      assert t[i - 1..j - 1] == s[i..j];
      assert j - 1 == |t| || !IsDigit(t[j - 1]);
      FirstNumberOfRun(t, i - 1, j - 1);
    }
  }

  /** The same for a string given in three parts: the text before the
      first digit, the run of digits, and what follows the run. */
  lemma FirstNumberOfParts(s: string, pre: string, run: string, post: string)
    requires s == pre + run + post
    requires NoDigits(pre) && AllDigits(run) && |run| > 0
    requires |post| == 0 || !IsDigit(post[0])
    ensures FirstNumber(s) == DecimalValue(run)
  {
    var i, j := |pre|, |pre| + |run|;
    assert s[..i] == pre;
    assert s[i..j] == run;
    assert j < |s| ==> s[j] == post[0];
    FirstNumberOfRun(s, i, j);
  }

  /** `++` regrouped: `(a + b) + c == a + (b + c)`. Stated as a lemma so
      that callers get the regrouping without proving a sequence equality
      in their own, larger, context. */
  lemma AppendAssoc<T>(a: seq<T>, b: seq<T>, c: seq<T>)
    ensures (a + b) + c == a + (b + c)
  {
  }

  /** The same when the string starts with its run of digits. */
  lemma FirstNumberOfLeadingRun(s: string, run: string, post: string)
    requires s == run + post
    requires AllDigits(run) && |run| > 0
    requires |post| == 0 || !IsDigit(post[0])
    ensures FirstNumber(s) == DecimalValue(run)
  {
    assert s == [] + run + post;
    FirstNumberOfParts(s, [], run, post);
  }

  /** The characters Python's `str.isspace()` accepts, by code point; these
      are what `str.strip()` with no argument removes. */
  predicate IsSpace(c: char) {
    var n := c as int;
    || 9 <= n <= 13
    || 28 <= n <= 32
    || n == 0x85 || n == 0xA0 || n == 0x1680
    || 0x2000 <= n <= 0x200A
    || n == 0x2028 || n == 0x2029 || n == 0x202F || n == 0x205F || n == 0x3000
  }

  predicate AllSpace(s: string) {
    forall i :: 0 <= i < |s| ==> IsSpace(s[i])
  }

  /** How many whitespace characters `s` starts with. */
  function LeadingSpace(s: string): (n: nat)
    ensures n <= |s| && AllSpace(s[..n])
    ensures n == |s| || !IsSpace(s[n])
  {
    if |s| > 0 && IsSpace(s[0]) then
      var m := LeadingSpace(s[1..]);
      var taken, rest := s[..m + 1], s[1..][..m];
      assert forall k :: 0 < k < m + 1 ==> taken[k] == rest[k - 1];
      m + 1
    else 0
  }

  /** How many whitespace characters `s` ends with. */
  function TrailingSpace(s: string): (n: nat)
    ensures n <= |s| && AllSpace(s[|s| - n..])
    ensures n == |s| || !IsSpace(s[|s| - n - 1])
  {
    if |s| > 0 && IsSpace(s[|s| - 1]) then
      var t := s[..|s| - 1];
      var m := TrailingSpace(t);
      var taken, rest := s[|s| - (m + 1)..], t[|t| - m..];
      assert forall k :: 0 <= k < m ==> taken[k] == rest[k];
      m + 1
    else 0
  }

  /** Python's `str.strip()`: the slice of `s` that starts after its leading
      whitespace and is followed only by whitespace; it neither starts nor
      ends with whitespace. */
  function Strip(s: string): (r: string)
    ensures var lead := LeadingSpace(s);
            && lead + |r| <= |s|
            && r == s[lead..lead + |r|]
            && AllSpace(s[..lead])
            && AllSpace(s[lead + |r|..])
    ensures |r| == 0 || (!IsSpace(r[0]) && !IsSpace(r[|r| - 1]))
  {
    var lead := LeadingSpace(s);
    var l := s[lead..];
    var n := TrailingSpace(l);
    var r := l[..|l| - n];
    assert s[lead + |r|..] == l[|l| - n..];
    assert |r| > 0 ==> r[0] == s[lead] && r[|r| - 1] == l[|l| - n - 1];
    r
  }

  /** Stripping twice is stripping once. */
  lemma StripIdempotent(s: string)
    ensures Strip(Strip(s)) == Strip(s)
  {
    var r := Strip(s);
    assert LeadingSpace(r) == 0;
    assert TrailingSpace(r[0..]) == 0;
    assert r[0..] == r;
  }

  /** The stripped text is empty exactly when the input is all whitespace. */
  lemma StripEmptyIff(s: string)
    ensures Strip(s) == [] <==> AllSpace(s)
  {
    var r := Strip(s);
    var lead := LeadingSpace(s);
    AllSpaceSplit(s, lead);
    assert r == [] ==> s[lead..] == s[lead + |r|..];
    assert r != [] ==> r[0] == s[lead];
  }

  /** A string is all whitespace exactly when both sides of any cut are. */
  lemma AllSpaceSplit(s: string, k: nat)
    requires k <= |s|
    ensures AllSpace(s) <==> AllSpace(s[..k]) && AllSpace(s[k..])
  {
    if AllSpace(s[..k]) && AllSpace(s[k..]) {
      forall i | 0 <= i < |s| ensures IsSpace(s[i]) {
        if i < k {
          assert s[i] == s[..k][i];
        } else {
          assert s[i] == s[k..][i - k];
        }
      }
    }
  }
}
