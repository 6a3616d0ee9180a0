/**
  Character classes and small searches shared by the editor's text passes.

  JavaScript strings are sequences of UTF-16 code units; here a string is a
  `seq<char>` and every class below is stated for the code points that the
  corresponding JavaScript regular-expression class matches.
 */
module Strings {

  import opened Wrappers

  /** JavaScript's `\s` (and the set `String.prototype.trim` removes):
      tab, line feed, vertical tab, form feed, carriage return, space,
      no-break space, the Unicode space separators, the line and paragraph
      separators and the byte-order mark. */
  predicate IsSpace(c: char) {
    var n := c as int;
    (0x09 <= n <= 0x0D) || n == 0x20 || n == 0xA0 || n == 0x1680
    || (0x2000 <= n <= 0x200A) || n == 0x2028 || n == 0x2029
    || n == 0x202F || n == 0x205F || n == 0x3000 || n == 0xFEFF
  }

  /** The line terminators, which JavaScript's `.` does not match. */
  predicate IsLineTerminator(c: char) {
    c == '\n' || c == '\r' || c as int == 0x2028 || c as int == 0x2029
  }

  /** JavaScript's `\d`: the ASCII digits only. */
  predicate IsDigit(c: char) {
    '0' <= c <= '9'
  }

  /** The class `[a-zA-Z]`. */
  predicate IsAsciiLetter(c: char) {
    'a' <= c <= 'z' || 'A' <= c <= 'Z'
  }

  /** The character classes the editor's patterns use. */
  datatype Class = Space | Digit | Letter

  predicate In(c: char, cl: Class) {
    match cl
    case Space => IsSpace(c)
    case Digit => IsDigit(c)
    case Letter => IsAsciiLetter(c)
  }

  /** Every character of `s` is in class `cl`. */
  predicate All(s: string, cl: Class) {
    forall k :: 0 <= k < |s| ==> In(s[k], cl)
  }

  /** No character of `s` equals `c`. */
  predicate Lacks(s: string, c: char) {
    forall k :: 0 <= k < |s| ==> s[k] != c
  }

  /** A concatenation lacks a character exactly when both parts do. */
  lemma LacksConcat(a: string, b: string, c: char)
    ensures Lacks(a + b, c) <==> Lacks(a, c) && Lacks(b, c)
  {
    if Lacks(a + b, c) {
      forall k | 0 <= k < |a| ensures a[k] != c {
        assert (a + b)[k] == a[k];
      }
      forall k | 0 <= k < |b| ensures b[k] != c {
        assert (a + b)[|a| + k] == b[k];
      }
    }
    if Lacks(a, c) && Lacks(b, c) {
      forall k | 0 <= k < |a + b| ensures (a + b)[k] != c {
        if k >= |a| {
          assert (a + b)[k] == b[k - |a|];
        }
      }
    }
  }

  /** `pat` occurs in `s` starting at index `k`. */
  predicate At(s: string, k: int, pat: string) {
    0 <= k && k + |pat| <= |s| && s[k..k + |pat|] == pat
  }

  /** An occurrence that fits in a prefix is seen the same way in the prefix. */
  lemma AtPrefix(s: string, n: nat, k: int, pat: string)
    requires 0 <= k && k + |pat| <= n <= |s|
    ensures At(s[..n], k, pat) <==> At(s, k, pat)
  {
    assert s[..n][k..k + |pat|] == s[k..k + |pat|];
  }

  /** An occurrence stays where it is when text is appended. */
  lemma AtAppend(a: string, b: string, k: int, pat: string)
    requires At(a, k, pat)
    ensures At(a + b, k, pat)
  {
    assert (a + b)[k..k + |pat|] == a[k..k + |pat|];
  }

  /** Concatenation is associative. */
  lemma Assoc<T>(a: seq<T>, b: seq<T>, c: seq<T>)
    ensures a + (b + c) == (a + b) + c
  {
  }

  /** Dropping `i` and then `n` characters drops `i + n`. */
  lemma DropDrop(s: string, i: nat, n: nat)
    requires i + n <= |s|
    ensures s[i..][n..] == s[i + n..]
  {
  }

  /** Cutting `s` at `n` and joining the halves gives `s` back. */
  lemma TakeDrop(s: string, n: nat)
    requires n <= |s|
    ensures s[..n] + s[n..] == s
  {
  }

  /** A non-empty string is its first character followed by the rest. */
  lemma HeadTail(s: string)
    requires s != []
    ensures [s[0]] + s[1..] == s
  {
  }

  /** Taking the length of the first part of a concatenation gives it back. */
  lemma TakeAppend(a: string, b: string)
    ensures (a + b)[..|a|] == a
  {
  }

  /** Dropping the first part of a concatenation leaves the second. */
  lemma DropAppend(a: string, b: string)
    ensures (a + b)[|a|..] == b
  {
  }

  /** A longer prefix is a shorter one followed by the slice between. */
  lemma TakeSplit(s: string, i: nat, j: nat)
    requires i <= j <= |s|
    ensures s[..j] == s[..i] + s[i..j]
  {
  }

  /** Dropping part of the first piece of a concatenation. */
  lemma DropInFirst(a: string, b: string, n: nat)
    requires n <= |a|
    ensures (a + b)[n..] == a[n..] + b
  {
  }

  /** `pat` occurs nowhere in `s`. */
  predicate Absent(s: string, pat: string) {
    forall k :: 0 <= k <= |s| ==> !At(s, k, pat)
  }

  /** Inserting characters that `pat` does not contain cannot create an
      occurrence of `pat`. */
  lemma AbsentInsert(x: string, sep: string, y: string, pat: string)
    requires pat != [] && Absent(x + y, pat)
    requires forall i :: 0 <= i < |sep| ==> Lacks(pat, sep[i])
    ensures Absent(x + sep + y, pat)
  {
    var t := x + sep + y;
    var u := x + y;
    forall k | 0 <= k <= |t| ensures !At(t, k, pat) {
      if k + |pat| <= |t| {
        var w := t[k..k + |pat|];
        if k + |pat| <= |x| || sep == [] {
          assert t == u || w == u[k..k + |pat|];
          assert !At(u, k, pat);
        } else if k >= |x| + |sep| {
          var j := k - |sep|;
          assert w == u[j..j + |pat|];
          assert !At(u, j, pat);
        } else {
          var p := if k < |x| then |x| else k;
          assert w[p - k] == sep[p - |x|];
          assert Lacks(pat, sep[p - |x|]);
          assert pat[p - k] != sep[p - |x|];
        }
      }
    }
  }

  /** A character is missing from `s` exactly when it is absent as a pattern. */
  lemma LacksIsAbsent(s: string, c: char)
    ensures Lacks(s, c) <==> Absent(s, [c])
  {
    forall k | 0 <= k < |s| ensures At(s, k, [c]) <==> s[k] == c {
      assert s[k..k + 1] == [s[k]];
    }
  }

  /** The end of the longest run of characters of class `cl` that starts at `i`. */
  function Run(s: string, i: nat, cl: Class): (j: nat)
    requires i <= |s|
    ensures i <= j <= |s|
    ensures forall k :: i <= k < j ==> In(s[k], cl)
    ensures j == |s| || !In(s[j], cl)
    decreases |s| - i
  {
    if i == |s| || !In(s[i], cl) then i else Run(s, i + 1, cl)
  }

  /** A run ends at the first character outside its class. */
  lemma RunIs(s: string, i: nat, cl: Class, j: nat)
    requires i <= j <= |s| && forall k :: i <= k < j ==> In(s[k], cl)
    requires j == |s| || !In(s[j], cl)
    ensures Run(s, i, cl) == j
  {
  }

  /** A run over a whole word of the class stops right after it. */
  lemma RunOver(s: string, pre: string, w: string, post: string, cl: Class)
    requires s == pre + w + post
    requires All(w, cl) && (post == [] || !In(post[0], cl))
    ensures Run(s, |pre|, cl) == |pre| + |w|
  {
    forall k | |pre| <= k < |pre| + |w| ensures In(s[k], cl) {
      assert s[k] == w[k - |pre|];
    }
    if post != [] {
      assert s[|pre| + |w|] == post[0];
    }
    RunIs(s, |pre|, cl, |pre| + |w|);
  }

  /** The characters a run passes over, as a string. */
  lemma RunSlice(s: string, i: nat, cl: Class)
    requires i <= |s|
    ensures All(s[i..Run(s, i, cl)], cl)
  {
    var j := Run(s, i, cl);
    forall k | 0 <= k < j - i ensures In(s[i..j][k], cl) {
      assert s[i..j][k] == s[i + k];
    }
  }

  /** The leftmost occurrence of `pat` in `s` at or after `from`: the way a
      lazy `[\s\S]*?` followed by a literal finds its end. */
  function FindFrom(s: string, pat: string, from: nat): (r: Option<nat>)
    ensures r.Some? ==> from <= r.value && r.value + |pat| <= |s|
    decreases |s| - from
  {
    if from + |pat| > |s| then None
    else if s[from..from + |pat|] == pat then Some(from)
    else FindFrom(s, pat, from + 1)
  }

  /** `FindFrom` finds an occurrence, and no occurrence lies before it; when it
      finds none, there is none. */
  lemma {:induction false} FindFromIsLeftmost(s: string, pat: string, from: nat)
    ensures FindFrom(s, pat, from).Some? ==> At(s, FindFrom(s, pat, from).value, pat)
    ensures FindFrom(s, pat, from).Some? ==>
              forall k :: from <= k < FindFrom(s, pat, from).value ==> !At(s, k, pat)
    ensures FindFrom(s, pat, from).None? ==> forall k :: from <= k ==> !At(s, k, pat)
    decreases |s| - from
  {
    if from + |pat| <= |s| && s[from..from + |pat|] != pat {
      FindFromIsLeftmost(s, pat, from + 1);
    }
  }

  /** An occurrence with none before it is the one `FindFrom` finds. */
  lemma FindFromFinds(s: string, pat: string, from: nat, k: nat)
    requires from <= k && At(s, k, pat)
    requires forall j :: from <= j < k ==> !At(s, j, pat)
    ensures FindFrom(s, pat, from) == Some(k)
  {
    FindFromIsLeftmost(s, pat, from);
  }

  /** `FindFrom` for a one-character pattern, stated on characters. */
  lemma FindCharFrom(s: string, c: char, from: nat)
    ensures FindFrom(s, [c], from).Some? ==>
              var f := FindFrom(s, [c], from).value;
              f < |s| && s[f] == c && forall k :: from <= k < f ==> s[k] != c
  {
    FindFromIsLeftmost(s, [c], from);
    if FindFrom(s, [c], from).Some? {
      var f := FindFrom(s, [c], from).value;
      assert s[f..f + 1] == [c];
      forall k | from <= k < f ensures s[k] != c {
        assert !At(s, k, [c]);
        assert s[k..k + 1] == [s[k]];
      }
    }
  }

  /** The first occurrence of a character after `from` is the one `FindFrom` finds. */
  lemma FindCharFinds(s: string, c: char, from: nat, f: nat)
    requires from <= f < |s| && s[f] == c
    requires forall k :: from <= k < f ==> s[k] != c
    ensures FindFrom(s, [c], from) == Some(f)
  {
    assert At(s, f, [c]) by { assert s[f..f + 1] == [c]; }
    forall k | from <= k < f ensures !At(s, k, [c]) {
      assert s[k..k + 1] == [s[k]];
    }
    FindFromFinds(s, [c], from, f);
  }

  /** `String.prototype.trim`: the bounds of `s` without its leading and
      trailing whitespace. */
  function TrimBounds(s: string): (r: (nat, nat))
    ensures r.0 <= r.1 <= |s|
    ensures All(s[..r.0], Space) && All(s[r.1..], Space)
    ensures r.0 < r.1 ==> !IsSpace(s[r.0]) && !IsSpace(s[r.1 - 1])
    ensures forall k :: 0 <= k < |s| && !IsSpace(s[k]) ==> r.0 <= k < r.1
  {
    var a := Run(s, 0, Space);
    (a, TrimEnd(s, a, |s|))
  }

  /** The end of `s[a..b]` once its trailing whitespace is removed. */
  function TrimEnd(s: string, a: nat, b: nat): (e: nat)
    requires a <= b <= |s|
    ensures a <= e <= b
    ensures forall k :: e <= k < b ==> IsSpace(s[k])
    ensures a < e ==> !IsSpace(s[e - 1])
    decreases b
  {
    if b == a || !IsSpace(s[b - 1]) then b else TrimEnd(s, a, b - 1)
  }

  function Trim(s: string): string {
    s[TrimBounds(s).0..TrimBounds(s).1]
  }

  /** `s.trim() === ''` holds exactly for the all-whitespace strings. */
  lemma TrimEmptyIffBlank(s: string)
    ensures Trim(s) == [] <==> All(s, Space)
  {
    var (a, b) := TrimBounds(s);
    if a < b {
      assert Trim(s)[0] == s[a];
    }
  }

  predicate IsDecimal(s: string) {
    All(s, Digit)
  }

  function DigitChar(d: nat): (c: char)
    requires d < 10
    ensures IsDigit(c)
  {
    ('0' as int + d) as char
  }

  function DigitValue(c: char): (d: nat)
    requires IsDigit(c)
    ensures d < 10 && DigitChar(d) == c
  {
    c as int - '0' as int
  }

  /** The decimal numeral JavaScript writes for a non-negative integer
      (template-literal conversion): no leading zeros. */
  function Decimal(n: nat): (r: string)
    ensures |r| > 0 && IsDecimal(r)
    ensures r[0] == '0' ==> n == 0 && r == "0"
    decreases n
  {
    if n < 10 then [DigitChar(n)] else Decimal(n / 10) + [DigitChar(n % 10)]
  }

  /** The value of a numeral (`parseInt` on a string of ASCII digits: leading
      zeros do not count). */
  function ParseDecimal(s: string): nat
    requires IsDecimal(s)
  {
    if s == [] then 0 else ParseDecimal(s[..|s| - 1]) * 10 + DigitValue(s[|s| - 1])
  }

  /** A numeral in the form `Decimal` produces: one digit, or no leading zero. */
  predicate IsCanonical(s: string) {
    |s| > 0 && IsDecimal(s) && (s[0] == '0' ==> |s| == 1)
  }

  lemma {:induction false} ParseDecimalOfDecimal(n: nat)
    ensures IsCanonical(Decimal(n))
    ensures ParseDecimal(Decimal(n)) == n
    decreases n
  {
    if n >= 10 {
      ParseDecimalOfDecimal(n / 10);
      var d := Decimal(n / 10) + [DigitChar(n % 10)];
      assert d[..|d| - 1] == Decimal(n / 10);
    }
  }

  lemma {:induction false} DecimalOfParseDecimal(s: string)
    requires IsCanonical(s)
    ensures Decimal(ParseDecimal(s)) == s
    decreases |s|
  {
    if |s| > 1 {
      var init := s[..|s| - 1];
      assert IsCanonical(init) by { assert init[0] == s[0]; }
      DecimalOfParseDecimal(init);
      ParseDecimalPositive(init);
      var n := ParseDecimal(s);
      assert n / 10 == ParseDecimal(init) && n % 10 == DigitValue(s[|s| - 1]);
      assert s == init + [s[|s| - 1]];
    }
  }

  /** A canonical numeral of two or more digits names a positive number. */
  lemma {:induction false} ParseDecimalPositive(s: string)
    requires IsCanonical(s) && s[0] != '0'
    ensures ParseDecimal(s) > 0
    decreases |s|
  {
    if |s| > 1 {
      var init := s[..|s| - 1];
      assert init[0] == s[0];
      ParseDecimalPositive(init);
    }
  }
}
