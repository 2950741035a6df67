/** `String.prototype.trim`, as `addTask` and `editTask` apply it to task text. */
module Text {

  /** The characters `trim` strips: ECMAScript WhiteSpace (tab, vertical tab, form feed,
      every space separator, the byte order mark) and LineTerminator (LF, CR, U+2028, U+2029). */
  predicate IsTrimmable(c: char) {
    c == '\t' || c == '\n' || c == '\U{000B}' || c == '\U{000C}' || c == '\r'
    || c == ' ' || c == '\U{00A0}' || c == '\U{1680}' || ('\U{2000}' <= c <= '\U{200A}')
    || c == '\U{2028}' || c == '\U{2029}' || c == '\U{202F}' || c == '\U{205F}'
    || c == '\U{3000}' || c == '\U{FEFF}'
  }

  predicate AllTrimmable(s: string) {
    forall k :: 0 <= k < |s| ==> IsTrimmable(s[k])
  }

  /** How many characters at the front of s are trimmable. */
  function LeadingCount(s: string): (n: nat)
    ensures n <= |s|
    ensures AllTrimmable(s[..n])
    ensures n < |s| ==> !IsTrimmable(s[n])
  {
    if s != [] && IsTrimmable(s[0]) then
      var k := LeadingCount(s[1..]);
      assert s[..k + 1] == [s[0]] + s[1..][..k];
      k + 1
    else 0
  }

  /** How many characters at the back of s are trimmable. */
  function TrailingCount(s: string): (n: nat)
    ensures n <= |s|
    ensures AllTrimmable(s[|s| - n..])
    ensures n < |s| ==> !IsTrimmable(s[|s| - 1 - n])
  {
    if s != [] && IsTrimmable(s[|s| - 1]) then
      var init := s[..|s| - 1];
      var k := TrailingCount(init);
      assert s[|s| - (k + 1)..] == init[|init| - k..] + [s[|s| - 1]];
      k + 1
    else 0
  }

  /** `trim`: the slice of s between its leading and its trailing whitespace. */
  function Trim(s: string): (r: string)
    ensures |r| <= |s|
    ensures r == [] || (!IsTrimmable(r[0]) && !IsTrimmable(r[|r| - 1]))
    ensures r == [] <==> AllTrimmable(s)
    ensures exists i, j :: 0 <= i <= j <= |s| && r == s[i..j] && AllTrimmable(s[..i]) && AllTrimmable(s[j..])
  {
    var rest := s[LeadingCount(s)..];
    RestFacts(s);
    SliceBetween(s, LeadingCount(s), TrailingCount(rest));
    rest[..|rest| - TrailingCount(rest)]
  }

  /** Cutting i characters off the front and m off the back of s leaves the slice
      s[i..|s| - m]; the back m characters are the same text either way. */
  lemma SliceBetween(s: string, i: nat, m: nat)
    requires i + m <= |s|
    requires AllTrimmable(s[i..][|s| - i - m..])
    ensures s[i..][..|s| - i - m] == s[i..|s| - m]
    ensures AllTrimmable(s[|s| - m..])
  {
    assert s[i..][|s| - i - m..] == s[|s| - m..];
  }

  /** What is left after the leading whitespace starts with a kept character exactly
      when s is not all whitespace. */
  lemma RestFacts(s: string)
    ensures var rest := s[LeadingCount(s)..];
      (rest == [] <==> AllTrimmable(s)) && (rest != [] ==> !IsTrimmable(rest[0]))
  {
    var n := LeadingCount(s);
    if n == |s| {
      assert s == s[..n];
    } else {
      assert s[n..][0] == s[n];
    }
  }

  /** Trim recovers the text between any trimmable padding: s = pad + r + pad'
      with r starting and ending in a kept character determines r. */
  lemma TrimPadded(front: string, r: string, back: string)
    requires AllTrimmable(front) && AllTrimmable(back)
    requires r != [] && !IsTrimmable(r[0]) && !IsTrimmable(r[|r| - 1])
    ensures Trim(front + r + back) == r
  {
    var s := front + r + back;
    var n := LeadingCount(s);
    assert s[|front|] == r[0];
    assert n == |front|;
    var rest := s[n..];
    assert rest == r + back;
    var m := TrailingCount(rest);
    assert rest[|rest| - 1 - |back|] == r[|r| - 1];
    assert m == |back|;
    assert rest[..|rest| - m] == r;
  }

  lemma TrimIdempotent(s: string)
    ensures Trim(Trim(s)) == Trim(s)
  {
    var r := Trim(s);
    if r != [] {
      TrimPadded([], r, []);
      assert [] + r + [] == r;
    }
  }
}
