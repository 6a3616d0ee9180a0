/**
  The two emphasis passes of the preview's pre-render pipeline
  (script.js:127-130), run on text whose code and math blocks have already
  been replaced by placeholders.

  Each pass is a global `replace`: it tries its pattern at every position
  from left to right, and where the pattern matches it writes the
  replacement and resumes after the match; elsewhere it copies one character.
  The two scanners below do exactly that, with the pattern's backtracking
  order worked out into explicit rules.
 */
module Emphasis {

  import opened Wrappers
  import opened Strings

  const StrongOpen := "<strong>"
  const StrongClose := "</strong>"
  const EmOpen := "<em>"
  const EmClose := "</em>"

  /** The class `[^\*\s]` that both patterns demand at the edges of the
      emphasised text. */
  predicate Edge(c: char) {
    c != '*' && !IsSpace(c)
  }

  // ---------------------------------------------------------------- strong

  /** The strong pattern can close at `k`: `**` there, after an edge character
      that is not one of the opening stars. */
  predicate Closes(s: string, k: int) {
    3 <= k && At(s, k, "**") && Edge(s[k - 1])
  }

  /** The first position at or after `k` where the strong pattern can close. */
  function CloseFrom(s: string, k: nat): (r: Option<nat>)
    ensures r.Some? ==> k <= r.value && Closes(s, r.value)
    ensures r.Some? ==> forall j :: k <= j < r.value ==> !Closes(s, j)
    ensures r.None? ==> forall j :: k <= j ==> !Closes(s, j)
    decreases |s| - k
  {
    if |s| < k + 2 then None
    else if Closes(s, k) then Some(k)
    else CloseFrom(s, k + 1)
  }

  /** `\*\*([^\*\s](?:[\s\S]*?[^\*\s])?)\*\*` at the start of `s`, as the end
      of the captured text. The optional group is tried before it is skipped
      and its lazy middle grows one character at a time, so the first closing
      at 4 or later wins, and only when there is none does the one-character
      text closing at 3 match. */
  function StrongAt(s: string): (r: Option<nat>)
    ensures r.Some? <==> At(s, 0, "**") && |s| > 2 && Edge(s[2]) && exists k :: Closes(s, k)
    ensures r.Some? ==> Closes(s, r.value) && r.value + 2 <= |s|
    ensures r.Some? && r.value > 3 ==> forall k :: 4 <= k < r.value ==> !Closes(s, k)
    ensures r == Some(3) ==> forall k :: 4 <= k ==> !Closes(s, k)
  {
    if !(At(s, 0, "**") && |s| > 2 && Edge(s[2])) then None
    else
      match CloseFrom(s, 4)
      case Some(e) => Some(e)
      case None => if Closes(s, 3) then Some(3) else None
  }

  /** The strong pass: `**X**` becomes `<strong>X</strong>`. */
  function Strong(s: string): string
    decreases |s|
  {
    if s == [] then []
    else
      match StrongAt(s)
      case Some(e) => StrongOpen + s[2..e] + StrongClose + Strong(s[e + 2..])
      case None => [s[0]] + Strong(s[1..])
  }

  // ---------------------------------------------------------------- italic

  /** One match of the italic pattern: the boundary character captured before
      the opening `*` (none at the start of the text), the emphasised text,
      and the boundary character captured after the closing `*` (none at the
      end of the text). */
  datatype Em = Em(before: string, body: string, after: string)

  /** The text a match covers. */
  function Matched(m: Em): string {
    m.before + "*" + m.body + "*" + m.after
  }

  /** What the pass writes for a match: `$1<em>$2</em>$3`. */
  function EmHtml(m: Em): string {
    m.before + EmOpen + m.body + EmClose + m.after
  }

  /** The matches of `([^\*]|^)\*([^\*\s](?:[^\*\n]*?[^\*\s])?)\*([^\*]|$)` at
      the start of `s`; `^` and `$` are the ends of the whole text (there is
      no `m` flag), and `atStart` says whether `s` begins there. The stars sit
      at `|m.before|` and just after the body. */
  predicate IsItalic(s: string, atStart: bool, m: Em) {
    var a, f := |m.before|, |m.before| + 1 + |m.body|;
    && |m.before| <= 1 && |m.after| <= 1
    && (m.before == [] ==> atStart)
    && (m.before != [] ==> m.before[0] != '*')
    && |m.body| > 0 && Edge(m.body[0]) && Edge(m.body[|m.body| - 1])
    && Lacks(m.body, '*') && Lacks(m.body, '\n')
    && (m.after != [] ==> m.after[0] != '*')
    && (m.after == [] ==> f + 1 == |s|)
    && f + 1 + |m.after| <= |s|
    && s[..a] == m.before && s[a] == '*' && s[a + 1..f] == m.body && s[f] == '*'
    && s[f + 1..f + 1 + |m.after|] == m.after
  }

  /** How many characters the boundary group `([^\*]|^)` takes. */
  function Lead(s: string): (a: nat)
    ensures a <= 1
  {
    if s != [] && s[0] != '*' then 1 else 0
  }

  /** The opening star and the first character of the emphasised text. */
  predicate Opens(s: string, a: nat, atStart: bool) {
    a + 2 <= |s| && (a == 1 || atStart) && s[a] == '*' && Edge(s[a + 1])
  }

  /** The rest of the italic pattern, once the opening star is at `a` and the
      first star after the text's first character is at `f`. */
  function CloseAt(s: string, a: nat, f: nat): (r: Option<Em>)
    requires a + 1 < f < |s|
    ensures r.Some? ==> r.value.before == s[..a] && r.value.body == s[a + 1..f]
    ensures r.Some? ==> |r.value.after| <= 1 && f + 1 + |r.value.after| <= |s|
    ensures r.Some? ==> Edge(s[f - 1]) && Lacks(s[a + 1..f], '\n')
    ensures r.Some? ==> s[f + 1..f + 1 + |r.value.after|] == r.value.after
    ensures r.Some? && r.value.after == [] ==> f + 1 == |s|
    ensures r.Some? && r.value.after != [] ==> r.value.after[0] != '*'
  {
    if !Edge(s[f - 1]) || !Lacks(s[a + 1..f], '\n') then None
    else if f + 1 == |s| then Some(Em(s[..a], s[a + 1..f], []))
    else if s[f + 1] != '*' then Some(Em(s[..a], s[a + 1..f], [s[f + 1]]))
    else None
  }

  /** The italic pattern at the start of `s`. The boundary before is the first
      character unless that is the `*` itself; the emphasised text runs to the
      first `*` after its first character. */
  function ItalicAt(s: string, atStart: bool): (r: Option<Em>)
    ensures r.Some? ==> 3 <= |Matched(r.value)| <= |s|
  {
    var a := Lead(s);
    if !Opens(s, a, atStart) then None
    else
      match FindFrom(s, "*", a + 2)
      case None => None
      case Some(f) => CloseAt(s, a, f)
  }

  /** The italic pass; `atStart` holds only for the whole text. */
  function Italic(s: string, atStart: bool): string
    decreases |s|
  {
    if s == [] then []
    else
      match ItalicAt(s, atStart)
      case Some(m) => EmHtml(m) + Italic(s[|Matched(m)|..], false)
      case None => [s[0]] + Italic(s[1..], false)
  }

  /** Everything `ItalicAt` returns is a match of the pattern. */
  lemma ItalicAtSound(s: string, atStart: bool)
    requires ItalicAt(s, atStart).Some?
    ensures IsItalic(s, atStart, ItalicAt(s, atStart).value)
  {
    var m := ItalicAt(s, atStart).value;
    var a := Lead(s);
    var f := FindFrom(s, "*", a + 2).value;
    assert CloseAt(s, a, f) == Some(m);
    FindCharFrom(s, '*', a + 2);
    BodyLacksStar(s, a, f);
  }

  /** The emphasised text runs from just after the opening star to the first
      star after its first character. */
  lemma BodyLacksStar(s: string, a: nat, f: nat)
    requires a + 1 < f <= |s| && s[a + 1] != '*'
    requires forall k :: a + 2 <= k < f ==> s[k] != '*'
    ensures Lacks(s[a + 1..f], '*')
  {
  }

  /** A match of the pattern is the one `ItalicAt` returns: the pattern has at
      most one match at a position, and the scanner finds it. */
  lemma ItalicAtComplete(s: string, atStart: bool, m: Em)
    requires IsItalic(s, atStart, m)
    ensures ItalicAt(s, atStart) == Some(m)
  {
    var a, f := |m.before|, |m.before| + 1 + |m.body|;
    assert Lead(s) == a;
    assert s[a + 1] == m.body[0];
    assert s[f - 1] == m.body[|m.body| - 1];
    BodyPositions(s, a, f, m.body);
    FindCharFinds(s, '*', a + 2, f);
    if m.after != [] {
      assert s[f + 1] == m.after[0];
      assert m.after == [s[f + 1]];
    }
  }

  /** The characters of a star-free body are not stars. */
  lemma BodyPositions(s: string, a: nat, f: nat, body: string)
    requires a + 1 <= f <= |s| && s[a + 1..f] == body && Lacks(body, '*')
    ensures forall k :: a + 1 <= k < f ==> s[k] != '*'
  {
    forall k | a + 1 <= k < f ensures s[k] != '*' {
      assert s[k] == body[k - a - 1];
    }
  }

  /** The match cut out of `s` by its two stars. */
  lemma MatchedOf(s: string, atStart: bool, m: Em)
    requires IsItalic(s, atStart, m)
    ensures |Matched(m)| <= |s| && s[..|Matched(m)|] == Matched(m)
  {
    var a, f := |m.before|, |m.before| + 1 + |m.body|;
    var n := f + 1 + |m.after|;
    assert s[a..a + 1] == "*" && s[f..f + 1] == "*";
    TakeSplit(s, a, a + 1);
    TakeSplit(s, a + 1, f);
    TakeSplit(s, f, f + 1);
    TakeSplit(s, f + 1, n);
  }

  // ------------------------------------------------------- plain text

  /** Text without a star passes through the strong pass unchanged. */
  lemma {:induction false} StrongWithoutStars(s: string)
    requires Lacks(s, '*')
    ensures Strong(s) == s
    decreases |s|
  {
    if s != [] {
      assert !At(s, 0, "**") by { assert s[0] != '*'; }
      StrongWithoutStars(s[1..]);
      HeadTail(s);
    }
  }

  /** Text without a star passes through the italic pass unchanged. */
  lemma {:induction false} ItalicWithoutStars(s: string, atStart: bool)
    requires Lacks(s, '*')
    ensures Italic(s, atStart) == s
    decreases |s|
  {
    if s != [] {
      assert !Opens(s, Lead(s), atStart) by { assert Lead(s) < |s| ==> s[Lead(s)] != '*'; }
      ItalicWithoutStars(s[1..], false);
      HeadTail(s);
    }
  }

  // ------------------------------------------------------- what fires

  /** `**x**` followed by star-free text becomes `<strong>x</strong>` followed
      by that text, when `x` is free of stars and starts and ends with a
      character that is neither a star nor whitespace, whatever character
      follows the closing stars (the case of a Korean particle right after
      the emphasis, which the Markdown renderer itself would not treat as
      strong). */
  lemma StrongWraps(x: string, rest: string)
    requires |x| > 0 && Edge(x[0]) && Edge(x[|x| - 1])
    requires Lacks(x, '*') && Lacks(rest, '*')
    ensures Strong("**" + x + "**" + rest) == StrongOpen + x + StrongClose + rest
  {
    var s := "**" + x + "**" + rest;
    var e := |x| + 2;
    OnlyClosing(s, x, rest);
    assert s[2..e] == x && s[e + 2..] == rest;
    StrongWithoutStars(rest);
  }

  /** The only place `**x**rest` can close is right after `x`. */
  lemma OnlyClosing(s: string, x: string, rest: string)
    requires s == "**" + x + "**" + rest
    requires |x| > 0 && Edge(x[0]) && Edge(x[|x| - 1])
    requires Lacks(x, '*') && Lacks(rest, '*')
    ensures StrongAt(s) == Some(|x| + 2)
  {
    var e := |x| + 2;
    forall j | 2 <= j < e ensures s[j] != '*' {
      assert s[j] == x[j - 2];
    }
    forall j | e + 2 <= j < |s| ensures s[j] != '*' {
      assert s[j] == rest[j - e - 2];
    }
    forall k | Closes(s, k) ensures k == e {
      assert s[k] == '*' && s[k + 1] == '*' by { assert s[k..k + 2] == "**"; }
    }
    assert Closes(s, e) by { assert s[e..e + 2] == "**"; assert s[e - 1] == x[|x| - 1]; }
    assert At(s, 0, "**") && s[2] == x[0];
  }

  /** One step of the italic pass where the pattern matches. */
  lemma ItalicMatchStep(s: string, atStart: bool, m: Em)
    requires IsItalic(s, atStart, m)
    ensures Italic(s, atStart) == EmHtml(m) + Italic(s[|Matched(m)|..], false)
  {
    ItalicAtComplete(s, atStart, m);
  }

  /** One step of the italic pass where the pattern does not match. */
  lemma ItalicCopyStep(s: string, atStart: bool)
    requires s != [] && ItalicAt(s, atStart).None?
    ensures Italic(s, atStart) == [s[0]] + Italic(s[1..], false)
  {
  }

  /** The match that `ItalicWraps` is about. */
  lemma WrapsIsItalic(s: string, pre: string, x: string, rest: string, atStart: bool)
    requires s == pre + "*" + x + "*" + rest
    requires |pre| <= 1 && (pre == [] ==> atStart) && (pre != [] ==> pre[0] != '*')
    requires |x| > 0 && Edge(x[0]) && Edge(x[|x| - 1])
    requires Lacks(x, '*') && Lacks(x, '\n') && (rest != [] ==> rest[0] != '*')
    ensures IsItalic(s, atStart, Em(pre, x, rest[..if rest == [] then 0 else 1]))
    ensures s[|pre| + |x| + 2..] == rest
  {
    var a, f := |pre|, |pre| + 1 + |x|;
    assert s[..a] == pre && s[a] == '*' && s[a + 1..f] == x && s[f] == '*';
    assert s[f + 1..] == rest;
    var n := if rest == [] then 0 else 1;
    assert s[f + 1..f + 1 + n] == rest[..n];
  }

  /** One step of the italic pass over a match: the replacement, then the
      scan of what follows the boundary character the match took. */
  lemma ItalicWrapStep(s: string, pre: string, x: string, rest: string, atStart: bool)
    requires s == pre + "*" + x + "*" + rest
    requires |pre| <= 1 && (pre == [] ==> atStart) && (pre != [] ==> pre[0] != '*')
    requires |x| > 0 && Edge(x[0]) && Edge(x[|x| - 1])
    requires Lacks(x, '*') && Lacks(x, '\n') && (rest != [] ==> rest[0] != '*')
    ensures var n := if rest == [] then 0 else 1;
            Italic(s, atStart) == pre + EmOpen + x + EmClose + rest[..n] + Italic(rest[n..], false)
  {
    var n := if rest == [] then 0 else 1;
    var m := Em(pre, x, rest[..n]);
    var k := |pre| + |x| + 2;
    WrapsIsItalic(s, pre, x, rest, atStart);
    ItalicMatchStep(s, atStart, m);
    DropDrop(s, k, n);
    assert |Matched(m)| == k + n;
    assert s[|Matched(m)|..] == rest[n..];
  }

  /** A star-free text between single stars, with a boundary character before
      it that is not a star (or the start of the text) and star-free text
      after it, is rewritten to `<em>`…`</em>` with everything around kept. */
  lemma ItalicWraps(pre: string, x: string, rest: string, atStart: bool)
    requires |pre| <= 1 && (pre == [] ==> atStart) && (pre != [] ==> pre[0] != '*')
    requires |x| > 0 && Edge(x[0]) && Edge(x[|x| - 1])
    requires Lacks(x, '*') && Lacks(x, '\n') && Lacks(rest, '*')
    ensures Italic(pre + "*" + x + "*" + rest, atStart) == pre + EmOpen + x + EmClose + rest
  {
    var s := pre + "*" + x + "*" + rest;
    var n := if rest == [] then 0 else 1;
    ItalicWrapStep(s, pre, x, rest, atStart);
    ItalicWithoutStars(rest[n..], false);
    TakeDrop(rest, n);
    Assoc(pre + EmOpen + x + EmClose, rest[..n], rest[n..]);
  }

  /** The motivating case: `**강조**에` (emphasis right before a Korean
      particle) becomes `<strong>강조</strong>에`. */
  lemma StrongBeforeHangul(x: string, particle: string)
    requires x == "\U{AC15}\U{C870}" && particle == "\U{C5D0}"
    ensures Strong("**" + x + "**" + particle) == "<strong>" + x + "</strong>" + particle
  {
    assert Edge(x[0]) && Edge(x[1]);
    StrongWraps(x, particle);
  }

  /** The strong pattern prefers the later closing: in `**x**y**` the text is
      `x**y`. */
  lemma StrongTakesLaterClosing(t: string)
    requires t == "**x**y**"
    ensures Strong(t) == "<strong>x**y</strong>"
  {
    assert !Closes(t, 4) by { assert t[5] == 'y'; }
    assert !Closes(t, 5) by { assert t[5] == 'y'; }
    assert Closes(t, 6) by { assert t[6..8] == "**"; }
    assert CloseFrom(t, 4) == Some(6);
    assert At(t, 0, "**") by { assert t[0..2] == "**"; }
    assert StrongAt(t) == Some(6);
    assert t[2..6] == "x**y" && t[8..] == [];
  }

  /** A star at the very end is never an opening star: the text after it
      would be empty. */
  lemma {:induction false} ItalicTrailingStar(z: string)
    requires Lacks(z, '*')
    ensures Italic(z + "*", false) == z + "*"
    decreases |z|
  {
    var s := z + "*";
    if z == [] {
      assert ItalicAt(s, false) == None;
      ItalicCopyStep(s, false);
      assert s[1..] == [];
    } else {
      assert s[0] == z[0] && Lead(s) == 1;
      assert !Opens(s, 1, false) by {
        if |z| > 1 {
          assert s[1] == z[1];
        }
      }
      ItalicCopyStep(s, false);
      assert s[1..] == z[1..] + "*";
      ItalicTrailingStar(z[1..]);
      HeadTail(z);
    }
  }

  /** A match at the start of the text has no boundary character before it. */
  lemma EmHtmlAtStart(m: Em)
    requires m.before == []
    ensures EmHtml(m) == EmOpen + m.body + EmClose + m.after
  {
    assert m.before + EmOpen == EmOpen;
  }

  /** After a match at the start of the text the scan resumes past the
      boundary character the match took. */
  lemma ItalicFirstMatch(x: string, c: char, rest: string)
    requires |x| > 0 && Edge(x[0]) && Edge(x[|x| - 1])
    requires Lacks(x, '*') && Lacks(x, '\n') && c != '*'
    ensures Italic("*" + x + "*" + ([c] + rest), true) == EmOpen + x + EmClose + [c] + Italic(rest, false)
  {
    var after := [c] + rest;
    var s := "*" + x + "*" + after;
    assert s == [] + "*" + x + "*" + after;
    ItalicWrapStep(s, [], x, after, true);
    assert after[..1] == [c];
    DropAppend([c], rest);
    assert [] + EmOpen == EmOpen;
  }

  /** A starred text right after a consumed boundary is left alone. */
  lemma ItalicLoneStars(y: string)
    requires Lacks(y, '*')
    ensures Italic("*" + y + "*", false) == "*" + y + "*"
  {
    var r := "*" + (y + "*");
    assert r == "*" + y + "*";
    assert ItalicAt(r, false) == None by { assert Lead(r) == 0; }
    ItalicCopyStep(r, false);
    DropAppend("*", y + "*");
    ItalicTrailingStar(y);
  }

  /** The italic pattern swallows the character after the closing star, so in
      `*x* *y*` the space that the second span needs before it is gone and
      only the first span is rewritten. */
  lemma ItalicConsumesBoundary(x: string, y: string)
    requires |x| > 0 && Edge(x[0]) && Edge(x[|x| - 1])
    requires Lacks(x, '*') && Lacks(x, '\n') && Lacks(y, '*')
    ensures Italic("*" + x + "*" + (" " + ("*" + y + "*")), true)
            == EmOpen + x + EmClose + " " + ("*" + y + "*")
  {
    ItalicFirstMatch(x, ' ', "*" + y + "*");
    ItalicLoneStars(y);
  }

  // ------------------------------------------------------- retagging

  /** The first step of a retagging of `s` into `t`: how many characters of
      each it covers. A character other than a star is kept; a star is kept
      or becomes `<em>` or `</em>`; a pair of stars becomes `<strong>` or
      `</strong>`. */
  function Step(s: string, t: string): (r: Option<(nat, nat)>)
    requires s != []
    ensures r.Some? ==> 0 < r.value.0 <= |s| && 0 < r.value.1 <= |t|
  {
    if s[0] != '*' then (if t != [] && t[0] == s[0] then Some((1, 1)) else None)
    else if At(t, 0, "*") then Some((1, 1))
    else if At(t, 0, EmOpen) then Some((1, |EmOpen|))
    else if At(t, 0, EmClose) then Some((1, |EmClose|))
    else if At(s, 0, "**") && At(t, 0, StrongOpen) then Some((2, |StrongOpen|))
    else if At(s, 0, "**") && At(t, 0, StrongClose) then Some((2, |StrongClose|))
    else None
  }

  /** `t` is `s` with some single stars replaced by `<em>` or `</em>` and
      some pairs of stars by `<strong>` or `</strong>`; every other character
      is kept, in order. */
  predicate Retagged(s: string, t: string)
    decreases |s|
  {
    if s == [] then t == []
    else
      match Step(s, t)
      case None => false
      case Some((n, n')) => Retagged(s[n..], t[n'..])
  }

  lemma {:induction false} RetaggedRefl(s: string)
    ensures Retagged(s, s)
    decreases |s|
  {
    if s != [] {
      RetaggedRefl(s[1..]);
      if s[0] == '*' {
        assert s[0..1] == "*";
      }
    }
  }

  /** Text appended on both sides does not change the first step. */
  lemma StepAppend(a: string, a': string, b: string, b': string)
    requires a != [] && Step(a, a').Some?
    ensures Step(a + b, a' + b') == Step(a, a')
  {
    var (n, n') := Step(a, a').value;
    var s, t := a + b, a' + b';
    assert s[0] == a[0] && t[0] == a'[0];
    assert s[..n] == a[..n] && t[..n'] == a'[..n'];
    if n' > 1 {
      assert t[1] == a'[1];
    }
  }

  /** A step looks no further than the text it writes. */
  lemma StepPrefix(s: string, t: string, n: nat, n': nat)
    requires s != [] && Step(s, t) == Some((n, n'))
    ensures Step(s, t[..n']) == Some((n, n'))
  {
    var u := t[..n'];
    assert u[0] == t[0];
    AtPrefix(t, n', 0, "*");
    if n' >= |EmOpen| { AtPrefix(t, n', 0, EmOpen); }
    if n' >= |EmClose| { AtPrefix(t, n', 0, EmClose); }
    if n' >= |StrongOpen| { AtPrefix(t, n', 0, StrongOpen); }
    if n' >= |StrongClose| { AtPrefix(t, n', 0, StrongClose); }
  }

  /** A step that writes one character keeps the character it reads. */
  lemma StepKeeps(s: string, t: string, n: nat)
    requires s != [] && Step(s, t) == Some((n, 1))
    ensures n == 1 && t[0] == s[0]
  {
    if s[0] == '*' {
      assert t[..1] == "*";
    }
  }

  /** Retagging works piece by piece. */
  lemma {:induction false} RetaggedAppend(a: string, a': string, b: string, b': string)
    requires Retagged(a, a') && Retagged(b, b')
    ensures Retagged(a + b, a' + b')
    decreases |a|
  {
    if a == [] {
      assert a + b == b && a' + b' == b';
    } else {
      var (n, n') := Step(a, a').value;
      StepAppend(a, a', b, b');
      RetaggedAppend(a[n..], a'[n'..], b, b');
      DropInFirst(a, b, n);
      DropInFirst(a', b', n');
    }
  }

  /** A single step that covers both texts is a retagging. */
  lemma OneStep(s: string, t: string)
    requires s != [] && Step(s, t) == Some((|s|, |t|))
    ensures Retagged(s, t)
  {
    assert s[|s|..] == [] && t[|t|..] == [];
  }

  /** The emphasis tags are retaggings of the star they replace. */
  lemma EmTagsRetag()
    ensures Retagged("*", EmOpen) && Retagged("*", EmClose)
  {
    assert EmOpen[..|EmOpen|] == EmOpen && EmOpen[0] == '<';
    OneStep("*", EmOpen);
    assert EmClose[..|EmClose|] == EmClose && EmClose[1] == '/';
    OneStep("*", EmClose);
  }

  /** The strong tags are retaggings of the pair of stars they replace. */
  lemma StrongTagsRetag()
    ensures Retagged("**", StrongOpen) && Retagged("**", StrongClose)
  {
    assert "**"[..2] == "**";
    assert StrongOpen[..|StrongOpen|] == StrongOpen && StrongOpen[1] == 's';
    OneStep("**", StrongOpen);
    assert StrongClose[..|StrongClose|] == StrongClose && StrongClose[1] == '/' && StrongClose[2] == 's';
    OneStep("**", StrongClose);
  }

  /** A strong match and its replacement. */
  lemma StrongPieceRetags(c: string)
    ensures Retagged("**" + c + "**", StrongOpen + c + StrongClose)
  {
    StrongTagsRetag();
    RetaggedRefl(c);
    RetaggedAppend("**", StrongOpen, c, c);
    RetaggedAppend("**" + c, StrongOpen + c, "**", StrongClose);
  }

  /** A strong match spans `**`, the text and `**`. */
  lemma StrongSplit(s: string, e: nat)
    requires StrongAt(s) == Some(e)
    ensures s == "**" + s[2..e] + "**" + s[e + 2..]
  {
    assert s[..2] == "**";
    assert s[e..e + 2] == "**";
    assert s == s[..2] + s[2..e] + s[e..e + 2] + s[e + 2..];
  }

  /** The strong pass only turns pairs of stars into `<strong>` and
      `</strong>`: everything else, the stars inside the text included, is
      kept in order. */
  lemma {:induction false} StrongRetags(s: string)
    ensures Retagged(s, Strong(s))
    decreases |s|
  {
    if s != [] {
      match StrongAt(s)
      case Some(e) =>
        var c, rest := s[2..e], s[e + 2..];
        StrongRetags(rest);
        StrongPieceRetags(c);
        RetaggedAppend("**" + c + "**", StrongOpen + c + StrongClose, rest, Strong(rest));
        StrongSplit(s, e);
      case None =>
        StrongRetags(s[1..]);
        RetaggedRefl([s[0]]);
        RetaggedAppend([s[0]], [s[0]], s[1..], Strong(s[1..]));
        HeadTail(s);
    }
  }

  /** An italic match and its replacement: the two stars become `<em>` and
      `</em>`, and the boundary characters and the text are kept. */
  lemma MatchedRetags(m: Em)
    ensures Retagged(Matched(m), EmHtml(m))
  {
    EmTagsRetag();
    RetaggedRefl(m.before);
    RetaggedRefl(m.body);
    RetaggedRefl(m.after);
    RetaggedAppend(m.before, m.before, "*", EmOpen);
    RetaggedAppend(m.before + "*", m.before + EmOpen, m.body, m.body);
    RetaggedAppend(m.before + "*" + m.body, m.before + EmOpen + m.body, "*", EmClose);
    RetaggedAppend(m.before + "*" + m.body + "*", m.before + EmOpen + m.body + EmClose, m.after, m.after);
  }

  /** The italic pass only turns single stars into `<em>` and `</em>`. */
  lemma {:induction false} ItalicRetags(s: string, atStart: bool)
    ensures Retagged(s, Italic(s, atStart))
    decreases |s|
  {
    if s != [] {
      match ItalicAt(s, atStart)
      case Some(m) =>
        var rest := s[|Matched(m)|..];
        ItalicAtSound(s, atStart);
        MatchedOf(s, atStart, m);
        ItalicRetags(rest, false);
        MatchedRetags(m);
        RetaggedAppend(Matched(m), EmHtml(m), rest, Italic(rest, false));
        TakeDrop(s, |Matched(m)|);
      case None =>
        ItalicRetags(s[1..], false);
        RetaggedRefl([s[0]]);
        RetaggedAppend([s[0]], [s[0]], s[1..], Italic(s[1..], false));
        HeadTail(s);
    }
  }

  /** A star-free word at the start of a text is copied to the start of any
      retagging of it. */
  lemma {:induction false} CopyWord(t: string, u: string, w: string)
    requires Retagged(t, u) && At(t, 0, w) && Lacks(w, '*')
    ensures At(u, 0, w) && Retagged(t[|w|..], u[|w|..])
    decreases |w|
  {
    if w != [] {
      assert t[0] == w[0];
      assert Step(t, u) == Some((1, 1));
      assert t[1..][..|w| - 1] == w[1..];
      CopyWord(t[1..], u[1..], w[1..]);
      assert u[..|w|] == [u[0]] + u[1..][..|w| - 1];
      DropDrop(t, 1, |w| - 1);
      DropDrop(u, 1, |w| - 1);
    }
  }

  /** A star that the first retagging keeps and the second turns into a
      strong tag was the first of a pair. */
  lemma KeptPair(s: string, t: string)
    requires s != [] && s[0] == '*' && Step(s, t) == Some((1, 1)) && Retagged(s[1..], t[1..])
    requires At(t, 0, "**")
    ensures At(s, 0, "**") && Retagged(s[2..], t[2..])
  {
    assert t[1] == '*' by { assert t[..2] == "**"; }
    var s1, t1 := s[1..], t[1..];
    assert s1 != [] && t1[0] == '*';
    assert At(t1, 0, "*") by { assert t1[..1] == [t1[0]]; }
    assert Step(s1, t1) == Some((1, 1));
    assert s[..2] == [s[0], s1[0]];
    DropDrop(s, 1, 1);
    DropDrop(t, 1, 1);
  }

  /** A kept character stays kept. */
  lemma StepKeepChar(s: string, t: string, u: string)
    requires s != [] && s[0] != '*' && Step(s, t).Some? && Retagged(t, u)
    ensures Step(s, t) == Some((1, 1)) && Step(t, u) == Some((1, 1)) && Step(s, u) == Some((1, 1))
  {
  }

  /** A star kept by the first retagging and replaced by a single-star step
      of the second is replaced the same way in one step. */
  lemma StepKeepStar(s: string, t: string, u: string, k': nat)
    requires s != [] && t != [] && s[0] == '*' && t[0] == '*' && Step(t, u) == Some((1, k'))
    ensures Step(s, u) == Some((1, k'))
  {
  }

  /** The same pair of stars turns into the same strong tag. */
  lemma StepPair(s: string, t: string, u: string, k': nat)
    requires s != [] && t != [] && At(s, 0, "**") && At(t, 0, "**") && Step(t, u) == Some((2, k'))
    ensures Step(s, u) == Some((2, k'))
  {
  }

  /** A tag written by the first retagging and copied by the second is the
      same step from the first text to the last. */
  lemma StepTag(s: string, t: string, u: string, n: nat, n': nat)
    requires s != [] && s[0] == '*' && Step(s, t) == Some((n, n')) && n' > 1
    requires At(u, 0, t[..n'])
    ensures Step(s, u) == Some((n, n'))
  {
    assert u[..n'] == t[..n'];
    assert u[0] == t[0] && u[1] == t[1];
    if n' > 2 {
      assert u[2] == t[2];
    }
    if n' == |EmOpen| {
      assert u[..|EmOpen|] == t[..|EmOpen|];
    } else if n' == |EmClose| {
      assert u[..|EmClose|] == t[..|EmClose|];
    } else if n' == |StrongOpen| {
      assert u[..|StrongOpen|] == t[..|StrongOpen|];
    } else {
      assert u[..|StrongClose|] == t[..|StrongClose|];
    }
  }

  /** A tag is free of stars. */
  lemma TagIsStarFree(s: string, t: string, n: nat, n': nat)
    requires s != [] && s[0] == '*' && Step(s, t) == Some((n, n')) && n' > 1
    ensures Lacks(t[..n'], '*')
  {
    if n' == |EmOpen| {
      assert t[..n'] == EmOpen;
    } else if n' == |EmClose| {
      assert t[..n'] == EmClose;
    } else if n' == |StrongOpen| {
      assert t[..n'] == StrongOpen;
    } else {
      assert t[..n'] == StrongClose;
    }
  }

  /** Retagging twice is retagging once: the italic pass run on the output of
      the strong pass is a retagging of the strong pass's input. */
  lemma {:induction false} RetaggedTrans(s: string, t: string, u: string)
    requires Retagged(s, t) && Retagged(t, u)
    ensures Retagged(s, u)
    decreases |s|
  {
    if s != [] {
      var (n, n') := Step(s, t).value;
      if s[0] != '*' {
        StepKeepChar(s, t, u);
        RetaggedTrans(s[1..], t[1..], u[1..]);
      } else if n' == 1 {
        assert t[0] == '*';
        var (k, k') := Step(t, u).value;
        if k == 1 {
          StepKeepStar(s, t, u, k');
          RetaggedTrans(s[1..], t[1..], u[k'..]);
        } else {
          assert At(t, 0, "**");
          KeptPair(s, t);
          StepPair(s, t, u, k');
          RetaggedTrans(s[2..], t[2..], u[k'..]);
        }
      } else {
        TagIsStarFree(s, t, n, n');
        CopyWord(t, u, t[..n']);
        StepTag(s, t, u, n, n');
        RetaggedTrans(s[n..], t[n'..], u[n'..]);
      }
    }
  }

  /** The two passes together change nothing but stars: their output is a
      retagging of their input. */
  lemma PassesRetag(s: string)
    ensures Retagged(s, Italic(Strong(s), true))
  {
    StrongRetags(s);
    ItalicRetags(Strong(s), true);
    RetaggedTrans(s, Strong(s), Italic(Strong(s), true));
  }
}
