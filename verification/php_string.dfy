/** The handful of PHP string built-ins and conversions the status line relies on:
    `trim`, `str_replace`, `implode`, the truthiness of a string in an `if`,
    and the decimal rendering of a whole number interpolated into a string. */
module PhpString {

  // ---------------------------------------------------------------------------
  // trim
  // ---------------------------------------------------------------------------

  /** The characters `trim` strips when called without a character list:
      space, tab, line feed, carriage return, NUL and vertical tab. */
  predicate IsTrimmable(c: char) {
    c == ' ' || c == '\t' || c == '\n' || c == '\r' || c == '\0' || c == '\U{000B}'
  }

  predicate AllTrimmable(s: string) {
    forall i :: 0 <= i < |s| ==> IsTrimmable(s[i])
  }

  /** A string `trim` leaves as it is: empty, or bounded by non-trimmable characters. */
  predicate IsTrimmed(s: string) {
    s == [] || (!IsTrimmable(s[0]) && !IsTrimmable(s[|s| - 1]))
  }

  /** Number of trimmable characters at the front of `s`. */
  function LeadingCount(s: string): (k: nat)
    ensures k <= |s|
    ensures AllTrimmable(s[..k])
    ensures k < |s| ==> !IsTrimmable(s[k])
  {
    if s == [] || !IsTrimmable(s[0]) then 0
    else
      var k := 1 + LeadingCount(s[1..]);
      assert s[..k] == [s[0]] + s[1..][..k - 1];
      k
  }

  /** Number of trimmable characters at the back of `s`. */
  function TrailingCount(s: string): (k: nat)
    ensures k <= |s|
    ensures AllTrimmable(s[|s| - k..])
    ensures k < |s| ==> !IsTrimmable(s[|s| - k - 1])
  {
    if s == [] || !IsTrimmable(s[|s| - 1]) then 0
    else
      var t := s[..|s| - 1];
      var k := 1 + TrailingCount(t);
      var tail := s[|s| - k..];
      assert AllTrimmable(tail) by {
        forall i | 0 <= i < k
          ensures IsTrimmable(tail[i])
        {
          if i < k - 1 {
            assert tail[i] == t[|t| - (k - 1)..][i];
          }
        }
      }
      assert k < |s| ==> s[|s| - k - 1] == t[|t| - (k - 1) - 1];
      k
  }

  /** PHP `trim($s)`: `s` with its leading and trailing trimmable characters removed.
      The result is the slice of `s` that starts at the first non-trimmable character,
      everything cut off is trimmable, and the result itself is trimmed. */
  function Trim(s: string): (r: string)
    ensures |r| <= |s|
    ensures IsTrimmed(r)
    ensures var k := LeadingCount(s);
            && k + |r| <= |s|
            && AllTrimmable(s[..k])
            && s[k..k + |r|] == r
            && AllTrimmable(s[k + |r|..])
  {
    var k := LeadingCount(s);
    var t := s[k..];
    var r := t[..|t| - TrailingCount(t)];
    assert s[k..k + |r|] == r;
    assert s[k + |r|..] == t[|t| - TrailingCount(t)..];
    r
  }

  /** A string that is already trimmed is its own trim. */
  lemma TrimOfTrimmed(s: string)
    requires IsTrimmed(s)
    ensures Trim(s) == s
  {
  }

  /** Trimmable padding in front of a non-trimmable character is counted exactly. */
  lemma {:induction false} LeadingCountPadded(pre: string, rest: string)
    requires AllTrimmable(pre)
    requires rest != [] && !IsTrimmable(rest[0])
    ensures LeadingCount(pre + rest) == |pre|
  {
    if pre != [] {
      assert (pre + rest)[1..] == pre[1..] + rest;
      LeadingCountPadded(pre[1..], rest);
    }
  }

  /** Trimmable padding after a non-trimmable character is counted exactly. */
  lemma {:induction false} TrailingCountPadded(rest: string, post: string)
    requires AllTrimmable(post)
    requires rest != [] && !IsTrimmable(rest[|rest| - 1])
    ensures TrailingCount(rest + post) == |post|
  {
    if post != [] {
      assert (rest + post)[..|rest + post| - 1] == rest + post[..|post| - 1];
      TrailingCountPadded(rest, post[..|post| - 1]);
    }
  }

  /** `trim` removes exactly the padding around a trimmed, non-empty core. */
  lemma TrimPadded(pre: string, core: string, post: string)
    requires AllTrimmable(pre) && AllTrimmable(post)
    requires core != [] && IsTrimmed(core)
    ensures Trim(pre + core + post) == core
  {
    var s := pre + core + post;
    LeadingCountPadded(pre, core + post);
    assert s == pre + (core + post);
    assert s[|pre|..] == core + post;
    TrailingCountPadded(core, post);
    assert (core + post)[..|core|] == core;
  }

  /** `trim` is idempotent. */
  lemma TrimIdempotent(s: string)
    ensures Trim(Trim(s)) == Trim(s)
  {
  }

  // ---------------------------------------------------------------------------
  // Substring occurrences and str_replace
  // ---------------------------------------------------------------------------

  /** `pat` occurs in `s` starting at index `i`. */
  predicate OccursAt(s: string, pat: string, i: int) {
    0 <= i && i + |pat| <= |s| && s[i..i + |pat|] == pat
  }

  /** `pat` occurs somewhere in `s` (PHP `str_contains`). */
  predicate Contains(s: string, pat: string) {
    exists i | 0 <= i <= |s| :: OccursAt(s, pat, i)
  }

  /** PHP `str_replace($search, $replace, $subject)` for string arguments: scanning
      left to right, every non-overlapping occurrence of `search` is replaced by
      `replace`; an empty `search` leaves the subject unchanged. */
  function StrReplace(search: string, replace: string, subject: string): (r: string)
    ensures |replace| <= |search| ==> |r| <= |subject|
    decreases |subject|
  {
    if search == [] || subject == [] then subject
    else if search <= subject then replace + StrReplace(search, replace, subject[|search|..])
    else [subject[0]] + StrReplace(search, replace, subject[1..])
  }

  /** An occurrence in the tail is an occurrence in the whole. */
  lemma ContainsTail(s: string, pat: string)
    requires s != []
    requires Contains(s[1..], pat)
    ensures Contains(s, pat)
  {
    var t := s[1..];
    var i :| OccursAt(t, pat, i);
    assert OccursAt(t, pat, i);
    assert s[i + 1..i + 1 + |pat|] == t[i..i + |pat|];
    assert OccursAt(s, pat, i + 1);
  }

  /** An occurrence that is not at the front lies in the tail. */
  lemma ContainsNotAtFront(s: string, pat: string)
    requires pat != [] && s != []
    requires Contains(s, pat) && !(pat <= s)
    ensures Contains(s[1..], pat)
  {
    var i :| OccursAt(s, pat, i);
    assert OccursAt(s, pat, i);
    assert i > 0;
    assert s[1..][i - 1..i - 1 + |pat|] == s[i..i + |pat|];
    assert OccursAt(s[1..], pat, i - 1);
  }

  /** Replacing in a subject where `search` does not occur changes nothing. */
  lemma {:induction false} StrReplaceAbsent(search: string, replace: string, subject: string)
    requires !Contains(subject, search)
    ensures StrReplace(search, replace, subject) == subject
    decreases |subject|
  {
    if search == [] || subject == [] {
    } else {
      if search <= subject {
        assert OccursAt(subject, search, 0);
        assert false;
      }
      if Contains(subject[1..], search) {
        ContainsTail(subject, search);
        assert false;
      }
      StrReplaceAbsent(search, replace, subject[1..]);
      assert [subject[0]] + subject[1..] == subject;
    }
  }

  /** When `search` occurs and is replaced by something strictly shorter,
      the result is strictly shorter than the subject. */
  lemma {:induction false} StrReplaceShrinks(search: string, replace: string, subject: string)
    requires |replace| < |search|
    requires Contains(subject, search)
    ensures |StrReplace(search, replace, subject)| < |subject|
    decreases |subject|
  {
    var i :| OccursAt(subject, search, i);
    assert subject != [];
    if !(search <= subject) {
      ContainsNotAtFront(subject, search);
      StrReplaceShrinks(search, replace, subject[1..]);
    }
  }

  /** Deleting a non-empty `search` (replacing it with "") changes the subject
      exactly when `search` occurs in it. */
  lemma StrReplaceDeleteChanges(search: string, subject: string)
    requires search != []
    ensures StrReplace(search, "", subject) == subject <==> !Contains(subject, search)
  {
    if Contains(subject, search) {
      StrReplaceShrinks(search, "", subject);
    } else {
      StrReplaceAbsent(search, "", subject);
    }
  }

  /** A subject made of `search` followed by a remainder in which `search` does not
      occur is turned into `replace` followed by that remainder. */
  lemma StrReplaceLeading(search: string, replace: string, rest: string)
    requires search != []
    requires !Contains(rest, search)
    ensures StrReplace(search, replace, search + rest) == replace + rest
  {
    var subject := search + rest;
    assert search <= subject;
    assert subject[|search|..] == rest;
    StrReplaceAbsent(search, replace, rest);
  }

  // ---------------------------------------------------------------------------
  // implode
  // ---------------------------------------------------------------------------

  /** Total length of the pieces. */
  function TotalLength(pieces: seq<string>): nat {
    if pieces == [] then 0 else |pieces[0]| + TotalLength(pieces[1..])
  }

  /** PHP `implode($sep, $pieces)`: the pieces in order with `sep` between each
      neighbouring pair. The result starts with the first piece, ends with the last,
      and is as long as the pieces plus one separator per gap. */
  function Implode(sep: string, pieces: seq<string>): (r: string)
    ensures pieces == [] ==> r == []
    ensures pieces != [] ==> pieces[0] <= r
    ensures pieces != [] ==> |pieces[|pieces| - 1]| <= |r| && r[|r| - |pieces[|pieces| - 1]|..] == pieces[|pieces| - 1]
  {
    if pieces == [] then []
    else if |pieces| == 1 then pieces[0]
    else pieces[0] + sep + Implode(sep, pieces[1..])
  }

  /** The joined text is as long as the pieces plus one separator per gap. */
  lemma {:induction false} ImplodeLength(sep: string, pieces: seq<string>)
    requires pieces != []
    ensures |Implode(sep, pieces)| == TotalLength(pieces) + (|pieces| - 1) * |sep|
  {
    if |pieces| > 1 {
      ImplodeLength(sep, pieces[1..]);
      assert Implode(sep, pieces) == pieces[0] + sep + Implode(sep, pieces[1..]);
      assert TotalLength(pieces) == |pieces[0]| + TotalLength(pieces[1..]);
    } else {
      assert TotalLength(pieces[1..]) == 0;
    }
  }

  /** Joining a piece in front of at least one other adds the piece and a separator. */
  lemma ImplodeCons(sep: string, p: string, rest: seq<string>)
    requires rest != []
    ensures Implode(sep, [p] + rest) == p + sep + Implode(sep, rest)
  {
  }

  /** Five pieces joined: the shape of every status line. */
  lemma ImplodeFive(sep: string, a: string, b: string, c: string, d: string, e: string)
    ensures Implode(sep, [a, b, c, d, e]) == a + sep + (b + sep + (c + sep + (d + sep + e)))
  {
    assert [a, b, c, d, e] == [a] + [b, c, d, e];
    assert [b, c, d, e] == [b] + [c, d, e];
    assert [c, d, e] == [c] + [d, e];
    assert [d, e] == [d] + [e];
    ImplodeCons(sep, a, [b, c, d, e]);
    ImplodeCons(sep, b, [c, d, e]);
    ImplodeCons(sep, c, [d, e]);
    ImplodeCons(sep, d, [e]);
  }

  // ---------------------------------------------------------------------------
  // Truthiness and whole-number rendering
  // ---------------------------------------------------------------------------

  /** A string is true in a PHP condition unless it is "" or "0": it has at least
      two characters, or its single character is not the digit zero. */
  predicate Truthy(s: string)
    ensures Truthy(s) <==> |s| >= 2 || (|s| == 1 && s[0] != '0')
  {
    s != "" && s != "0"
  }

  predicate IsDigit(c: char) {
    '0' <= c <= '9'
  }

  predicate AllDigits(s: string) {
    forall i :: 0 <= i < |s| ==> IsDigit(s[i])
  }

  function DigitChar(d: nat): (c: char)
    requires d < 10
    ensures IsDigit(c)
  {
    "0123456789"[d]
  }

  function DigitValue(c: char): nat
    requires IsDigit(c)
  {
    (c as int) - ('0' as int)
  }

  /** The decimal text of a whole number, as PHP prints an integral value
      interpolated into a string: digits only, no sign, no leading zero. */
  function NatToString(n: nat): (r: string)
    ensures r != [] && AllDigits(r)
    ensures r[0] == '0' ==> r == "0"
  {
    if n < 10 then [DigitChar(n)]
    else NatToString(n / 10) + [DigitChar(n % 10)]
  }

  /** The value of a string of decimal digits. */
  function ParseDecimal(s: string): nat
    requires AllDigits(s)
  {
    if s == [] then 0
    else 10 * ParseDecimal(s[..|s| - 1]) + DigitValue(s[|s| - 1])
  }

  /** Reading the rendered digits back yields the number. */
  lemma {:induction false} ParseNatToString(n: nat)
    ensures ParseDecimal(NatToString(n)) == n
  {
    var r := NatToString(n);
    if n >= 10 {
      var p := NatToString(n / 10);
      assert r[..|r| - 1] == p;
      ParseNatToString(n / 10);
    }
  }

  /** Distinct numbers render as distinct strings. */
  lemma NatToStringInjective(m: nat, n: nat)
    requires NatToString(m) == NatToString(n)
    ensures m == n
  {
    ParseNatToString(m);
    ParseNatToString(n);
  }
}
