/**
  The two small pure helpers of the editor's image renderer: `escapeHtml`,
  which makes a string safe to place in HTML text and attribute values, and
  `isSvgPath`, which decides whether an image reference names an SVG file.
 */
module Escape {

  import opened Strings

  /** One global `replace` of a single character by a string. */
  function ReplaceChar(s: string, c: char, rep: string): (r: string)
    ensures Lacks(rep, c) ==> Lacks(r, c)
  {
    if s == [] then []
    else (if s[0] == c then rep else [s[0]]) + ReplaceChar(s[1..], c, rep)
  }

  /** `escapeHtml`: five chained global replacements, `&` first. */
  function EscapeHtml(s: string): string {
    ReplaceChar(ReplaceChar(ReplaceChar(ReplaceChar(ReplaceChar(
      s, '&', "&amp;"), '<', "&lt;"), '>', "&gt;"), '"', "&quot;"), '\'', "&#39;")
  }

  /** The reference definition: each character is escaped on its own. */
  function EscapeChar(c: char): string {
    match c
    case '&' => "&amp;"
    case '<' => "&lt;"
    case '>' => "&gt;"
    case '"' => "&quot;"
    case '\'' => "&#39;"
    case _ => [c]
  }

  function EscapeEach(s: string): string {
    if s == [] then [] else EscapeChar(s[0]) + EscapeEach(s[1..])
  }

  lemma {:induction false} ReplaceCharAppend(a: string, b: string, c: char, rep: string)
    ensures ReplaceChar(a + b, c, rep) == ReplaceChar(a, c, rep) + ReplaceChar(b, c, rep)
    decreases |a|
  {
    if a == [] {
      assert a + b == b;
    } else {
      assert (a + b)[0] == a[0] && (a + b)[1..] == a[1..] + b;
      ReplaceCharAppend(a[1..], b, c, rep);
      assert ReplaceChar(a, c, rep) == (if a[0] == c then rep else [a[0]]) + ReplaceChar(a[1..], c, rep);
    }
  }

  /** Because `&` is replaced first, the chain escapes every character
      exactly once: an `&` introduced by a later step is never re-escaped. */
  lemma {:induction false} EscapeHtmlIsPerCharacter(s: string)
    ensures EscapeHtml(s) == EscapeEach(s)
    decreases |s|
  {
    if s != [] {
      HeadTail(s);
      EscapeHtmlAppend([s[0]], s[1..]);
      EscapeHtmlOfChar(s[0]);
      EscapeHtmlIsPerCharacter(s[1..]);
    }
  }

  lemma EscapeHtmlAppend(a: string, b: string)
    ensures EscapeHtml(a + b) == EscapeHtml(a) + EscapeHtml(b)
  {
    ReplaceCharAppend(a, b, '&', "&amp;");
    var a1, b1 := ReplaceChar(a, '&', "&amp;"), ReplaceChar(b, '&', "&amp;");
    ReplaceCharAppend(a1, b1, '<', "&lt;");
    var a2, b2 := ReplaceChar(a1, '<', "&lt;"), ReplaceChar(b1, '<', "&lt;");
    ReplaceCharAppend(a2, b2, '>', "&gt;");
    var a3, b3 := ReplaceChar(a2, '>', "&gt;"), ReplaceChar(b2, '>', "&gt;");
    ReplaceCharAppend(a3, b3, '"', "&quot;");
    var a4, b4 := ReplaceChar(a3, '"', "&quot;"), ReplaceChar(b3, '"', "&quot;");
    ReplaceCharAppend(a4, b4, '\'', "&#39;");
  }

  lemma EscapeHtmlOfChar(c: char)
    ensures EscapeHtml([c]) == EscapeChar(c)
  {
    EscapeCharIsInert(c);
    var s1 := Stage([c], c, '&', "&amp;");
    var s2 := Stage(s1, c, '<', "&lt;");
    var s3 := Stage(s2, c, '>', "&gt;");
    var s4 := Stage(s3, c, '"', "&quot;");
    var s5 := Stage(s4, c, '\'', "&#39;");
  }

  /** An escaped character is either the character itself or an entity in
      which none of the characters replaced after `&` occurs. */
  lemma EscapeCharIsInert(c: char)
    ensures EscapeChar(c) == [c] || (EscapeChar(c) != [c] && Inert(EscapeChar(c)))
  {
  }

  predicate Inert(s: string) {
    Lacks(s, '<') && Lacks(s, '>') && Lacks(s, '"') && Lacks(s, '\'')
  }

  /** One replacement of the chain, applied to what the previous ones left
      of a single character: the character itself, or its entity. */
  lemma Stage(s: string, c: char, x: char, rep: string) returns (r: string)
    requires rep == EscapeChar(x)
    requires s == [c] || Lacks(s, x)
    ensures r == ReplaceChar(s, x, rep)
    ensures s == [c] && c == x ==> r == EscapeChar(c)
    ensures s == [c] && c != x ==> r == [c]
    ensures s != [c] ==> r == s
  {
    if s == [c] {
      assert s[1..] == [];
    } else {
      NoEffect(s, x, rep);
    }
    r := ReplaceChar(s, x, rep);
  }

  /** Replacing a character that does not occur changes nothing. */
  lemma {:induction false} NoEffect(s: string, c: char, rep: string)
    requires Lacks(s, c)
    ensures ReplaceChar(s, c, rep) == s
    decreases |s|
  {
    if s != [] {
      NoEffect(s[1..], c, rep);
    }
  }

  /** The five entities `escapeHtml` produces, and the characters they stand for. */
  const Entities: seq<string> := ["&amp;", "&lt;", "&gt;", "&quot;", "&#39;"]
  const Decoded: string := "&<>\"'"

  predicate EntityAt(s: string, i: int) {
    exists j :: 0 <= j < |Entities| && At(s, i, Entities[j])
  }

  predicate Unsafe(c: char) {
    c == '<' || c == '>' || c == '"' || c == '\''
  }

  /** The output of `escapeHtml` holds no `<`, `>`, `"` or `'`, and every `&`
      in it begins one of the five entities. */
  lemma {:induction false} EscapeHtmlIsSafe(s: string)
    ensures forall k :: 0 <= k < |EscapeHtml(s)| ==> !Unsafe(EscapeHtml(s)[k])
    ensures forall k :: 0 <= k < |EscapeHtml(s)| && EscapeHtml(s)[k] == '&' ==> EntityAt(EscapeHtml(s), k)
  {
    EscapeHtmlIsPerCharacter(s);
    EscapeEachIsSafe(s);
    assert Safe(EscapeHtml(s));
  }

  predicate Safe(s: string) {
    && (forall k :: 0 <= k < |s| ==> !Unsafe(s[k]))
    && (forall k :: 0 <= k < |s| && s[k] == '&' ==> EntityAt(s, k))
  }

  lemma {:induction false} EscapeEachIsSafe(s: string)
    ensures Safe(EscapeEach(s))
    decreases |s|
  {
    if s != [] {
      EscapeEachIsSafe(s[1..]);
      EscapeCharIsSafe(s[0]);
      SafeAppend(EscapeChar(s[0]), EscapeEach(s[1..]));
    }
  }

  lemma EscapeCharIsSafe(c: char)
    ensures Safe(EscapeChar(c))
  {
    var e := EscapeChar(c);
    if c == '&' || Unsafe(c) {
      var i := if c == '&' then 0 else if c == '<' then 1 else if c == '>' then 2 else if c == '"' then 3 else 4;
      assert e == Entities[i] && At(e, 0, e);
    }
  }

  /** Safety of the parts carries over to the whole: an entity inside either
      part stays whole. */
  lemma SafeAppend(x: string, r: string)
    requires Safe(x) && Safe(r)
    ensures Safe(x + r)
  {
    forall k | 0 <= k < |x| + |r|
      ensures !Unsafe((x + r)[k])
      ensures (x + r)[k] == '&' ==> EntityAt(x + r, k)
    {
      if k < |x| {
        SafeAppendLeft(x, r, k);
      } else {
        SafeAppendRight(x, r, k - |x|);
      }
    }
  }

  /** An entity in the left part is still there after appending. */
  lemma SafeAppendLeft(x: string, r: string, k: nat)
    requires Safe(x) && k < |x|
    ensures !Unsafe((x + r)[k])
    ensures (x + r)[k] == '&' ==> EntityAt(x + r, k)
  {
    var t := x + r;
    assert t[k] == x[k];
    if x[k] == '&' {
      var j :| 0 <= j < |Entities| && At(x, k, Entities[j]);
      assert t[k..k + |Entities[j]|] == x[k..k + |Entities[j]|];
    }
  }

  /** An entity in the right part is still there, shifted, after prepending. */
  lemma SafeAppendRight(x: string, r: string, k: nat)
    requires Safe(r) && k < |r|
    ensures !Unsafe((x + r)[|x| + k])
    ensures (x + r)[|x| + k] == '&' ==> EntityAt(x + r, |x| + k)
  {
    var t := x + r;
    assert t[|x| + k] == r[k];
    if r[k] == '&' {
      var j :| 0 <= j < |Entities| && At(r, k, Entities[j]);
      assert t[|x| + k..|x| + k + |Entities[j]|] == r[k..k + |Entities[j]|];
    }
  }

  /** The first of the entities, tried in order from index `j`, that starts
      `s`; `|Entities|` when none does. */
  function FirstEntity(s: string, j: nat): (i: nat)
    requires j <= |Entities|
    ensures j <= i <= |Entities|
    ensures i < |Entities| ==> At(s, 0, Entities[i])
    decreases |Entities| - j
  {
    if j == |Entities| then j
    else if At(s, 0, Entities[j]) then j
    else FirstEntity(s, j + 1)
  }

  /** The decoder of the five entities: the inverse of `escapeHtml`. */
  function Unescape(s: string): string
    decreases |s|
  {
    if s == [] then []
    else
      var i := FirstEntity(s, 0);
      if i < |Entities| then [Decoded[i]] + Unescape(s[|Entities[i]|..])
      else [s[0]] + Unescape(s[1..])
  }

  /** No text starts with two different entities: their second characters differ. */
  lemma EntityUnique(t: string, i: nat, j: nat)
    requires i < |Entities| && j < |Entities|
    requires At(t, 0, Entities[i]) && At(t, 0, Entities[j])
    ensures i == j
  {
    assert t[0..|Entities[i]|][1] == t[1] == t[0..|Entities[j]|][1];
  }

  /** The entity that starts `t` is the one the decoder finds. */
  lemma {:induction false} FirstEntityFinds(t: string, i: nat, j: nat)
    requires j <= i < |Entities| && At(t, 0, Entities[i])
    ensures FirstEntity(t, j) == i
    decreases i - j
  {
    if j < i {
      if At(t, 0, Entities[j]) {
        EntityUnique(t, i, j);
      }
      FirstEntityFinds(t, i, j + 1);
    }
  }

  /** Text that does not start with `&` starts with no entity. */
  lemma {:induction false} NoEntity(t: string, j: nat)
    requires j <= |Entities| && |t| > 0 && t[0] != '&'
    ensures FirstEntity(t, j) == |Entities|
    decreases |Entities| - j
  {
    if j < |Entities| {
      assert At(t, 0, Entities[j]) ==> t[0..|Entities[j]|][0] == t[0];
      NoEntity(t, j + 1);
    }
  }

  /** Decoding the escaped text gives back the original: `escapeHtml` loses
      nothing. */
  lemma {:induction false} EscapeHtmlRoundTrip(s: string)
    ensures Unescape(EscapeHtml(s)) == s
  {
    EscapeHtmlIsPerCharacter(s);
    UnescapeEscapeEach(s);
  }

  lemma {:induction false} UnescapeEscapeEach(s: string)
    ensures Unescape(EscapeEach(s)) == s
    decreases |s|
  {
    if s != [] {
      UnescapeEscapeEach(s[1..]);
      UnescapeEscapeChar(s[0], EscapeEach(s[1..]));
      HeadTail(s);
    }
  }

  lemma UnescapeEscapeChar(c: char, r: string)
    ensures Unescape(EscapeChar(c) + r) == [c] + Unescape(r)
  {
    if c == '&' || Unsafe(c) {
      UnescapeEntity(c, r);
    } else {
      UnescapePlain(c, r);
    }
  }

  lemma UnescapeEntity(c: char, r: string)
    requires c == '&' || Unsafe(c)
    ensures Unescape(EscapeChar(c) + r) == [c] + Unescape(r)
  {
    var i := if c == '&' then 0 else if c == '<' then 1 else if c == '>' then 2 else if c == '"' then 3 else 4;
    assert EscapeChar(c) == Entities[i] && Decoded[i] == c;
    UnescapeEntityAt(i, r);
  }

  /** An entity followed by any text decodes to its character. */
  lemma UnescapeEntityAt(i: nat, r: string)
    requires i < |Entities|
    ensures Unescape(Entities[i] + r) == [Decoded[i]] + Unescape(r)
  {
    var e := Entities[i];
    TakeAppend(e, r);
    DropAppend(e, r);
    FirstEntityFinds(e + r, i, 0);
  }

  lemma UnescapePlain(c: char, r: string)
    requires c != '&' && !Unsafe(c)
    ensures Unescape([c] + r) == [c] + Unescape(r)
  {
    var t := [c] + r;
    assert t[0] == c && t[1..] == r;
    NoEntity(t, 0);
  }

  /** JavaScript's `/\.svg(\?.*)?(#.*)?$/i` matches at index `i` of `t`. */
  predicate SvgMatchAt(t: string, i: int) {
    0 <= i && i + 4 <= |t| && t[i] == '.'
    && (t[i + 1] == 's' || t[i + 1] == 'S')
    && (t[i + 2] == 'v' || t[i + 2] == 'V')
    && (t[i + 3] == 'g' || t[i + 3] == 'G')
    && SvgTail(t[i + 4..])
  }

  /** What `(\?.*)?(#.*)?$` accepts: nothing, or a `?` or `#` followed by a
      single line. */
  predicate SvgTail(rest: string) {
    rest == [] || ((rest[0] == '?' || rest[0] == '#') && !exists k :: 1 <= k < |rest| && IsLineTerminator(rest[k]))
  }

  /** The regular-expression search, left to right from index `i`. */
  function SvgFrom(t: string, i: nat): (r: bool)
    ensures r <==> exists j :: i <= j && SvgMatchAt(t, j)
    decreases |t| - i
  {
    if i + 4 > |t| then false
    else if SvgMatchAt(t, i) then true
    else SvgFrom(t, i + 1)
  }

  /** `isSvgPath` on a string argument. */
  function IsSvgPath(path: string): bool {
    SvgFrom(Trim(path), 0)
  }

  /** A path whose last four characters spell `.svg`, in any letter case,
      names an SVG file. */
  lemma SvgExtensionIsSvg(base: string, ext: string)
    requires |ext| == 4 && ext[0] == '.'
    requires ext[1] in "sS" && ext[2] in "vV" && ext[3] in "gG"
    ensures IsSvgPath(base + ext)
  {
    var p := base + ext;
    var (a, b) := TrimBounds(p);
    assert p[|base|] == '.' && !IsSpace(p[|base|]);
    assert !IsSpace(p[|p| - 1]);
    assert b == |p|;
    assert a <= |base|;
    var t := p[a..b];
    assert SvgMatchAt(t, |base| - a) by { assert t[|base| - a + 4..] == []; }
  }

  /** The query and fragment after the extension are allowed, on one line,
      whatever whitespace trails them. */
  lemma SvgQueryIsSvg(base: string, query: string)
    requires |query| > 0 && query[0] == '?'
    requires forall k :: 0 <= k < |query| ==> !IsLineTerminator(query[k])
    ensures IsSvgPath(base + ".svg" + query)
  {
    var head := base + ".svg";
    var p := head + query;
    var (a, b) := TrimBounds(p);
    assert p[|base|] == '.' && !IsSpace(p[|base|]);
    assert p[|head|] == '?' && !IsSpace(p[|head|]);
    assert |head| < b && a <= |base|;
    var i := |base| - a;
    var t := p[a..b];
    assert t[i] == '.' && t[i + 1] == 's' && t[i + 2] == 'v' && t[i + 3] == 'g';
    var tail := t[i + 4..];
    assert tail == query[..b - |head|] by {
      assert tail == p[|head|..b];
      DropAppend(head, query);
    }
    assert SvgTail(tail);
    SvgMatchIsSvg(p, i);
  }

  /** A match anywhere in the trimmed path makes it an SVG path. */
  lemma SvgMatchIsSvg(p: string, i: nat)
    requires SvgMatchAt(Trim(p), i)
    ensures IsSvgPath(p)
  {
  }

  /** A longer extension defeats the match. */
  lemma LongerExtensionIsNotSvg(t: string)
    requires t == "logo.svgz"
    ensures !IsSvgPath(t)
  {
    assert Trim(t) == t by {
      assert !IsSpace(t[0]) && !IsSpace(t[|t| - 1]);
    }
    assert !SvgMatchAt(t, 4) by { assert t[8..] == "z"; }
    assert forall j :: 0 <= j < 4 ==> t[j] != '.';
  }

  /** Another extension is not SVG. */
  lemma OtherExtensionIsNotSvg(t: string)
    requires t == "logo.png"
    ensures !IsSvgPath(t)
  {
    assert Trim(t) == t by {
      assert !IsSpace(t[0]) && !IsSpace(t[|t| - 1]);
    }
    assert forall j :: 0 <= j < 4 ==> t[j] != '.';
  }
}
