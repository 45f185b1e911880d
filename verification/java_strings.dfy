/**
  The few `java.lang.String` and `java.lang.Integer` operations the interpreter relies on,
  with Java's own semantics: `indexOf`, `split` (which drops trailing empty pieces),
  `trim`, `Integer.parseInt` and the decimal rendering of a number.
 */
module JavaStrings {
  import opened Wrappers

  /** `sep` occurs in `s` starting at index `k`. */
  predicate OccursAt(s: string, sep: string, k: int) {
    0 <= k && k + |sep| <= |s| && s[k..k + |sep|] == sep
  }

  predicate Contains(s: string, sep: string) {
    exists k :: 0 <= k <= |s| && OccursAt(s, sep, k)
  }

  predicate EndsWith(s: string, sep: string) {
    |sep| <= |s| && s[|s| - |sep|..] == sep
  }

  /** No occurrence of `sep` in `a + sep` starts inside `a`: splitting `a + sep + b` cuts right after `a`. */
  predicate Separable(a: string, sep: string) {
    forall k :: 0 <= k < |a| ==> !OccursAt(a + sep, sep, k)
  }

  /** `s.indexOf(sep, from)`: the first occurrence at or after `from`, or -1. */
  function IndexFrom(s: string, sep: string, from: nat): (r: int)
    requires from <= |s|
    ensures r == -1 || (from <= r && OccursAt(s, sep, r))
    ensures forall k :: from <= k && (r == -1 || k < r) ==> !OccursAt(s, sep, k)
    decreases |s| - from
  {
    if OccursAt(s, sep, from) then from
    else if from == |s| then -1
    else IndexFrom(s, sep, from + 1)
  }

  /** `s.indexOf(sep)`. */
  function IndexOf(s: string, sep: string): (r: int)
    ensures r == -1 <==> !Contains(s, sep)
    ensures r != -1 ==> OccursAt(s, sep, r) && forall k :: 0 <= k < r ==> !OccursAt(s, sep, k)
  {
    IndexFrom(s, sep, 0)
  }

  /** An occurrence inside a prefix of `s` is an occurrence in `s`. */
  lemma OccursInPrefix(s: string, n: nat, sep: string, k: int)
    requires n <= |s|
    requires OccursAt(s[..n], sep, k)
    ensures OccursAt(s, sep, k)
  {
    assert s[..n][k..k + |sep|] == s[k..k + |sep|];
  }

  /** The inverse of splitting: the pieces glued back together with the separator. */
  function Join(pieces: seq<string>, sep: string): string {
    if |pieces| == 0 then ""
    else if |pieces| == 1 then pieces[0]
    else pieces[0] + sep + Join(pieces[1..], sep)
  }

  /** `s.split(sep, -1)` for a literal separator: every piece, empty ones included. */
  function SplitAll(s: string, sep: string): (r: seq<string>)
    requires sep != ""
    ensures |r| >= 1 && r[0] <= s
    ensures forall k :: 0 <= k < |r| ==> !Contains(r[k], sep)
    decreases |s|
  {
    var i := IndexOf(s, sep);
    if i == -1 then [s]
    else
      assert !Contains(s[..i], sep) by {
        forall k | 0 <= k <= i && OccursAt(s[..i], sep, k) ensures false {
          OccursInPrefix(s, i, sep, k);
        }
      }
      [s[..i]] + SplitAll(s[i + |sep|..], sep)
  }

  /** Splitting loses nothing: joining the pieces gives the string back. */
  lemma {:induction false} JoinSplitAll(s: string, sep: string)
    requires sep != ""
    ensures Join(SplitAll(s, sep), sep) == s
    decreases |s|
  {
    var i := IndexOf(s, sep);
    if i != -1 {
      var tail := s[i + |sep|..];
      var rest := SplitAll(tail, sep);
      var r := SplitAll(s, sep);
      assert r == [s[..i]] + rest;
      assert r[1..] == rest;
      JoinSplitAll(tail, sep);
      assert Join(r, sep) == s[..i] + sep + tail;
      assert s[i..i + |sep|] == sep;
      SliceJoin(s, i, i + |sep|);
    }
  }

  lemma SliceJoin(s: string, i: nat, j: nat)
    requires i <= j <= |s|
    ensures s[..i] + s[i..j] + s[j..] == s
  {
  }

  /** The last piece is empty only when the string is empty or ends with the separator. */
  lemma {:induction false} SplitAllLastPiece(s: string, sep: string)
    requires sep != ""
    ensures var r := SplitAll(s, sep); r[|r| - 1] == "" ==> s == "" || EndsWith(s, sep)
    decreases |s|
  {
    var i := IndexOf(s, sep);
    if i != -1 {
      var tail := s[i + |sep|..];
      var rest := SplitAll(tail, sep);
      assert SplitAll(s, sep) == [s[..i]] + rest;
      SplitAllLastPiece(tail, sep);
      if rest[|rest| - 1] == "" {
        if tail == "" {
          assert s[|s| - |sep|..] == s[i..i + |sep|];
        } else {
          EndsWithSuffix(s, i + |sep|, sep);
        }
      }
    }
  }

  lemma EndsWithSuffix(s: string, j: nat, sep: string)
    requires j <= |s| && EndsWith(s[j..], sep)
    ensures EndsWith(s, sep)
  {
    assert s[|s| - |sep|..] == s[j..][|s| - j - |sep|..];
  }

  /** Removes the empty pieces at the end, as `split` with limit 0 does. */
  function DropTrailingEmpty(pieces: seq<string>): (r: seq<string>)
    ensures r <= pieces
    ensures r == [] || r[|r| - 1] != ""
    ensures forall k :: |r| <= k < |pieces| ==> pieces[k] == ""
    decreases |pieces|
  {
    if pieces == [] then []
    else if pieces[|pieces| - 1] == "" then DropTrailingEmpty(pieces[..|pieces| - 1])
    else pieces
  }

  /** Nothing is dropped when the last piece is not empty. */
  lemma NothingDropped(pieces: seq<string>)
    requires |pieces| > 0 && pieces[|pieces| - 1] != ""
    ensures DropTrailingEmpty(pieces) == pieces
  {
  }

  /** When the separator occurs and the last piece is not empty, `split(sep)` and
      `split(sep, -1)` agree. */
  lemma SplitKeepsAll(s: string, sep: string)
    requires sep != "" && |SplitAll(s, sep)| > 1
    requires SplitAll(s, sep)[|SplitAll(s, sep)| - 1] != ""
    ensures Split(s, sep) == SplitAll(s, sep)
  {
    assert IndexOf(s, sep) != -1;
    NothingDropped(SplitAll(s, sep));
  }

  /** `s.split(sep)` for a literal separator: the whole string when `sep` does not occur,
      otherwise the pieces without the trailing empty ones (possibly none at all). */
  function Split(s: string, sep: string): (r: seq<string>)
    requires sep != ""
    ensures |r| > 0 ==> r[0] <= s
    ensures forall k :: 0 <= k < |r| ==> !Contains(r[k], sep)
  {
    if IndexOf(s, sep) == -1 then [s] else DropTrailingEmpty(SplitAll(s, sep))
  }

  /** Splitting `a + sep + b` cuts right after `a` when no occurrence starts inside `a`. */
  lemma SplitAllCons(a: string, sep: string, b: string)
    requires sep != "" && Separable(a, sep)
    ensures SplitAll(a + sep + b, sep) == [a] + SplitAll(b, sep)
  {
    var s := a + sep + b;
    assert OccursAt(s, sep, |a|) by { assert s[|a|..|a| + |sep|] == sep; }
    forall k | 0 <= k < |a| ensures !OccursAt(s, sep, k) {
      assert !OccursAt(a + sep, sep, k);
      assert s[k..k + |sep|] == (a + sep)[k..k + |sep|];
    }
    var i := IndexOf(s, sep);
    assert i == |a|;
    assert s[..i] == a && s[i + |sep|..] == b;
  }

  /** A piece without the separator is split into itself. */
  lemma SplitAllNone(s: string, sep: string)
    requires sep != "" && !Contains(s, sep)
    ensures SplitAll(s, sep) == [s]
  {
  }

  /** Joining pieces that split cleanly and splitting again gives the pieces back. */
  lemma {:induction false} SplitAllJoin(pieces: seq<string>, sep: string)
    requires sep != "" && |pieces| >= 1
    requires forall k :: 0 <= k < |pieces| - 1 ==> Separable(pieces[k], sep)
    requires !Contains(pieces[|pieces| - 1], sep)
    ensures SplitAll(Join(pieces, sep), sep) == pieces
    decreases |pieces|
  {
    if |pieces| == 1 {
      SplitAllNone(pieces[0], sep);
    } else {
      var rest := pieces[1..];
      assert rest[|rest| - 1] == pieces[|pieces| - 1];
      assert forall k :: 0 <= k < |rest| - 1 ==> rest[k] == pieces[k + 1];
      SplitAllJoin(rest, sep);
      SplitAllCons(pieces[0], sep, Join(rest, sep));
      assert [pieces[0]] + rest == pieces;
    }
  }

  /** A string none of whose characters can start the separator is separable. */
  lemma SeparableWithoutFirstChar(a: string, sep: string)
    requires sep != ""
    requires forall k :: 0 <= k < |a| ==> a[k] != sep[0]
    ensures Separable(a, sep)
  {
    forall k | 0 <= k < |a| ensures !OccursAt(a + sep, sep, k) {
      if k + |sep| <= |a + sep| {
        assert (a + sep)[k..k + |sep|][0] == a[k];
      }
    }
  }

  /** A string without the separator whose last character does not occur in the separator
      is separable. */
  lemma SeparableLastChar(a: string, sep: string)
    requires sep != "" && a != "" && a[|a| - 1] !in sep && !Contains(a, sep)
    ensures Separable(a, sep)
  {
    forall k | 0 <= k < |a| ensures !OccursAt(a + sep, sep, k) {
      if k + |sep| <= |a| {
        assert (a + sep)[k..k + |sep|] == a[k..k + |sep|];
        assert !OccursAt(a, sep, k);
      } else {
        var w := (a + sep)[k..k + |sep|];
        assert w[|a| - 1 - k] == a[|a| - 1];
        assert sep[|a| - 1 - k] in sep;
      }
    }
  }

  /** An occurrence inside the middle part of `x + y + z` is an occurrence in `y`. */
  lemma OccursInMiddle(x: string, y: string, z: string, sep: string, k: nat)
    requires k + |sep| <= |y|
    ensures OccursAt(x + y + z, sep, |x| + k) <==> OccursAt(y, sep, k)
  {
    assert (x + y + z)[|x| + k..|x| + k + |sep|] == y[k..k + |sep|];
  }

  /** A string followed by a space is separable for a separator without spaces
      that does not occur in the string itself. */
  lemma SeparableBeforeSpace(a: string, sep: string)
    requires sep != "" && ' ' !in sep && !Contains(a, sep)
    ensures Separable(a + " ", sep)
  {
    var a' := a + " ";
    forall k | 0 <= k < |a'| ensures !OccursAt(a' + sep, sep, k) {
      if k + |sep| <= |a| {
        assert (a' + sep)[k..k + |sep|] == a[k..k + |sep|];
        assert !OccursAt(a, sep, k);
      } else {
        var w := (a' + sep)[k..k + |sep|];
        assert sep[|a| - k] in sep;
        assert w[|a| - k] == (a' + sep)[|a|] == ' ';
        assert w != sep;
      }
    }
  }

  // ---------------------------------------------------------------- trim

  /** `String.trim` removes every character up to U+0020 at both ends. */
  predicate IsSpace(c: char) { c <= ' ' }

  predicate AllSpace(s: string) {
    forall k :: 0 <= k < |s| ==> IsSpace(s[k])
  }

  predicate IsTrimmed(s: string) {
    s == "" || (!IsSpace(s[0]) && !IsSpace(s[|s| - 1]))
  }

  function TrimStart(s: string): (r: string)
    ensures |r| <= |s| && r == s[|s| - |r|..]
    ensures AllSpace(s[..|s| - |r|])
    ensures r == "" || !IsSpace(r[0])
    decreases |s|
  {
    if s != "" && IsSpace(s[0]) then TrimStart(s[1..]) else s
  }

  function TrimEnd(s: string): (r: string)
    ensures |r| <= |s| && r == s[..|r|]
    ensures AllSpace(s[|r|..])
    ensures r == "" || !IsSpace(r[|r| - 1])
    decreases |s|
  {
    if s != "" && IsSpace(s[|s| - 1]) then TrimEnd(s[..|s| - 1]) else s
  }

  /** `s.trim()`. */
  function Trim(s: string): (r: string)
    ensures IsTrimmed(r)
  {
    TrimEnd(TrimStart(s))
  }

  /** Leading white space before a string that starts with a visible character is all `TrimStart` removes. */
  lemma {:induction false} TrimStartPadded(pre: string, x: string)
    requires AllSpace(pre) && (x == "" || !IsSpace(x[0]))
    ensures TrimStart(pre + x) == x
    decreases |pre|
  {
    if pre != "" {
      assert (pre + x)[1..] == pre[1..] + x;
      TrimStartPadded(pre[1..], x);
    }
  }

  /** Trailing white space after a string that ends with a visible character is all `TrimEnd` removes. */
  lemma {:induction false} TrimEndPadded(x: string, post: string)
    requires AllSpace(post) && (x == "" || !IsSpace(x[|x| - 1]))
    ensures TrimEnd(x + post) == x
    decreases |post|
  {
    if post != "" {
      assert (x + post)[..|x + post| - 1] == x + post[..|post| - 1];
      TrimEndPadded(x, post[..|post| - 1]);
    } else {
      assert x + post == x;
    }
  }

  /** Trimming is exact: padding a trimmed string with white space and trimming gives it back. */
  lemma TrimPadded(pre: string, x: string, post: string)
    requires AllSpace(pre) && AllSpace(post) && IsTrimmed(x)
    ensures Trim(pre + x + post) == x
  {
    if x == "" {
      var s := pre + x + post;
      assert AllSpace(s);
      TrimStartPadded(s, "");
      assert s + "" == s;
    } else {
      assert pre + x + post == pre + (x + post);
      TrimStartPadded(pre, x + post);
      TrimEndPadded(x, post);
    }
  }

  /** A string that starts with a visible character keeps that character first. */
  lemma TrimKeepsFirst(s: string)
    requires s != "" && !IsSpace(s[0])
    ensures Trim(s) != "" && Trim(s)[0] == s[0]
  {
    var t := TrimStart(s);
    assert t == s by {
      TrimStartPadded("", s);
      assert "" + s == s;
    }
    assert !AllSpace(s[0..]) by { assert s[0..][0] == s[0]; }
  }

  /** White space trims to nothing. */
  lemma TrimAllSpace(s: string)
    requires AllSpace(s)
    ensures Trim(s) == ""
  {
    TrimStartPadded(s, "");
    assert s + "" == s;
  }

  // ---------------------------------------------------------------- lines

  /** The characters `Scanner.nextLine` ends a line at. */
  predicate IsLineBreak(c: char) {
    c == '\n' || c == '\r' || c == '\U{0085}' || c == '\U{2028}' || c == '\U{2029}'
  }

  predicate NoLineBreak(s: string) {
    forall k :: 0 <= k < |s| ==> !IsLineBreak(s[k])
  }

  lemma NoLineBreakConcat(a: string, b: string)
    requires NoLineBreak(a) && NoLineBreak(b)
    ensures NoLineBreak(a + b)
  {
    forall k | 0 <= k < |a + b| ensures !IsLineBreak((a + b)[k]) {
      if k >= |a| { assert (a + b)[k] == b[k - |a|]; }
    }
  }

  lemma NoLineBreakSlice(s: string, i: nat, j: nat)
    requires i <= j <= |s| && NoLineBreak(s)
    ensures NoLineBreak(s[i..j])
  {
    forall k | 0 <= k < j - i ensures !IsLineBreak(s[i..j][k]) {
      assert s[i..j][k] == s[i + k];
    }
  }

  /** Trimming a line leaves a line. */
  lemma NoLineBreakTrim(s: string)
    requires NoLineBreak(s)
    ensures NoLineBreak(Trim(s))
  {
    var t := TrimStart(s);
    NoLineBreakSlice(s, |s| - |t|, |s|);
    assert s[|s| - |t|..|s|] == t;
    NoLineBreakSlice(t, 0, |TrimEnd(t)|);
    assert t[0..|TrimEnd(t)|] == TrimEnd(t);
  }

  /** Every piece of a line split on a separator is a line. */
  lemma {:induction false} NoLineBreakSplitAll(s: string, sep: string, k: nat)
    requires sep != "" && NoLineBreak(s) && k < |SplitAll(s, sep)|
    ensures NoLineBreak(SplitAll(s, sep)[k])
    decreases |s|
  {
    var i := IndexOf(s, sep);
    if i == -1 {
      assert SplitAll(s, sep) == [s];
    } else {
      var tail := s[i + |sep|..];
      var rest := SplitAll(tail, sep);
      assert SplitAll(s, sep) == [s[..i]] + rest;
      if k == 0 {
        NoLineBreakSlice(s, 0, i);
        assert s[0..i] == s[..i];
      } else {
        NoLineBreakSlice(s, i + |sep|, |s|);
        assert s[i + |sep|..|s|] == tail;
        NoLineBreakSplitAll(tail, sep, k - 1);
        assert ([s[..i]] + rest)[k] == rest[k - 1];
      }
    }
  }

  lemma NoLineBreakSplit(s: string, sep: string, k: nat)
    requires sep != "" && NoLineBreak(s) && k < |Split(s, sep)|
    ensures NoLineBreak(Split(s, sep)[k])
  {
    if IndexOf(s, sep) != -1 {
      NoLineBreakSplitAll(s, sep, k);
    }
  }

  // ---------------------------------------------------------------- numbers

  const MinInt32: int := -0x8000_0000
  const MaxInt32: int := 0x7fff_ffff

  predicate IsDigit(c: char) { '0' <= c <= '9' }

  predicate AllDigits(s: string) {
    forall k :: 0 <= k < |s| ==> IsDigit(s[k])
  }

  /** The value of a string of decimal digits. */
  function DigitsValue(s: string): nat
    requires AllDigits(s)
    decreases |s|
  {
    if s == "" then 0 else 10 * DigitsValue(s[..|s| - 1]) + (s[|s| - 1] as int - '0' as int)
  }

  /** `Integer.parseInt(s)`, `None` standing for `NumberFormatException`: an optional sign,
      then one or more ASCII digits, the value within the 32-bit range. */
  function ParseInt(s: string): (r: Option<int>)
    ensures r.Some? ==> MinInt32 <= r.value <= MaxInt32
  {
    if s == "" then None
    else
      var digits := if s[0] == '-' || s[0] == '+' then s[1..] else s;
      if digits == "" || !AllDigits(digits) then None
      else
        var magnitude: int := DigitsValue(digits);
        var v := if s[0] == '-' then -magnitude else magnitude;
        if MinInt32 <= v <= MaxInt32 then Some(v) else None
  }

  /** A character other than a digit or a sign makes `parseInt` fail. */
  lemma ParseIntRejects(s: string, k: nat)
    requires k < |s| && !IsDigit(s[k]) && s[k] != '-' && s[k] != '+'
    ensures ParseInt(s) == None
  {
    if s[0] == '-' || s[0] == '+' {
      assert s[1..][k - 1] == s[k];
    }
  }

  function DigitChar(d: nat): char
    requires d < 10
  {
    ('0' as int + d) as char
  }

  /** The decimal rendering of a number, as string concatenation of an `int` does. */
  function NatToString(n: nat): (s: string)
    ensures s != "" && AllDigits(s)
    ensures DigitsValue(s) == n
    ensures |s| == 1 || s[0] != '0'
    decreases n
  {
    if n < 10 then [DigitChar(n)]
    else
      var prefix := NatToString(n / 10);
      var s := prefix + [DigitChar(n % 10)];
      assert s[..|s| - 1] == prefix;
      assert s[0] == prefix[0];
      assert |prefix| == 1 ==> DigitsValue(prefix) == prefix[0] as int - '0' as int;
      s
  }

  /** `parseInt` reads back every rendered number in range. */
  lemma ParseIntOfNatToString(n: nat)
    requires n <= MaxInt32
    ensures ParseInt(NatToString(n)) == Some(n)
  {
    var s := NatToString(n);
    assert IsDigit(s[0]);
  }
}
