/**
  The first pre-render pass of the preview: a bare LaTeX environment
  `\begin{NAME}...\end{NAME}` is wrapped in display-math delimiters
  `$$\n...\n$$`, while a block already written as `$$...$$` is left as it is.

  The pass is one global `replace` with the pattern
  `\$\$[\s\S]*?\$\$|\\begin\{([a-zA-Z]*\*?)\}[\s\S]*?\\end\{\1\}`: the scan
  tries both alternatives, in that order, at each index from left to right,
  copies a character when neither matches, and resumes after each match.
  `Segments` is that scan; `Rendered` is the replacement callback applied to
  its matches.
 */
module AutoWrap {

  import opened Wrappers
  import opened Strings

  /** A name `[a-zA-Z]*\*?`: ASCII letters, optionally followed by one `*`. */
  predicate IsEnvName(name: string) {
    && (forall k :: 0 <= k < |name| - 1 ==> IsAsciiLetter(name[k]))
    && (|name| > 0 ==> IsAsciiLetter(name[|name| - 1]) || name[|name| - 1] == '*')
  }

  const Begin := "\\begin{"
  const End := "\\end{"

  /** The tag `open + NAME + "}"` at index `i`, NAME matching `[a-zA-Z]*\*?`:
      the index just past the closing brace. Backtracking cannot shorten the
      name, because a letter or `*` cannot stand where `}` is required. */
  function TagAt(s: string, i: nat, open: string): (e: Option<nat>)
    requires i <= |s|
    ensures e.Some? ==> i + |open| + 1 <= e.value <= |s| && At(s, i, open) && s[e.value - 1] == '}'
  {
    if !At(s, i, open) then None
    else
      var j := Run(s, i + |open|, Letter);
      var k := if j < |s| && s[j] == '*' then j + 1 else j;
      if k < |s| && s[k] == '}' then Some(k + 1) else None
  }

  /** A tag that is found carries a name the pattern allows. */
  lemma TagAtSound(s: string, i: nat, open: string)
    requires i <= |s| && TagAt(s, i, open).Some?
    ensures IsEnvName(s[i + |open|..TagAt(s, i, open).value - 1])
  {
  }

  /** Every tag the pattern allows is found, with its whole name. */
  lemma TagAtComplete(s: string, i: nat, open: string, name: string)
    requires i <= |s| && IsEnvName(name) && At(s, i, open + name + "}")
    ensures TagAt(s, i, open) == Some(i + |open| + |name| + 1)
  {
    var t := open + name + "}";
    var b := i + |open|;
    assert s[i..i + |open|] == t[..|open|];
    assert forall k :: 0 <= k < |name| ==> s[b + k] == name[k] by {
      forall k | 0 <= k < |name| ensures s[b + k] == name[k] {
        assert s[i..i + |t|][|open| + k] == t[|open| + k];
      }
    }
    assert s[b + |name|] == '}' by { assert s[i..i + |t|][|t| - 1] == t[|t| - 1]; }
    var m := if |name| > 0 && name[|name| - 1] == '*' then b + |name| - 1 else b + |name|;
    forall k | b <= k < m ensures In(s[k], Letter) {
      assert s[b + (k - b)] == name[k - b];
    }
    RunIs(s, b, Letter, m);
  }

  /** A tag is recognised the same way in any prefix of `s` that holds it. */
  lemma TagAtPrefix(s: string, i: nat, open: string, n: nat)
    requires i <= |s| && TagAt(s, i, open).Some? && TagAt(s, i, open).value <= n <= |s|
    ensures TagAt(s[..n], i, open) == TagAt(s, i, open)
  {
    var b := s[..n];
    assert b[i..i + |open|] == s[i..i + |open|];
    var j := Run(s, i + |open|, Letter);
    RunPrefix(s, i + |open|, Letter, n);
  }

  /** A run that ends inside a prefix ends at the same index in the prefix. */
  lemma RunPrefix(s: string, i: nat, cl: Class, n: nat)
    requires i <= |s| && Run(s, i, cl) < n <= |s|
    ensures Run(s[..n], i, cl) == Run(s, i, cl)
  {
  }

  /** `\$\$[\s\S]*?\$\$` at the start of `s`: the length of the match. */
  function MathBlockAt(s: string): (r: Option<nat>)
    ensures r.Some? ==> 4 <= r.value <= |s| && s[0] == '$'
  {
    if At(s, 0, "$$") then
      match FindFrom(s, "$$", 2)
      case Some(k) => Some(k + 2)
      case None => None
    else None
  }

  /** A display-math block is found exactly when `$$` starts the text and
      occurs again later; it ends at the first `$$` after the opening one. */
  lemma MathBlockAtShape(s: string)
    ensures MathBlockAt(s).Some? <==> At(s, 0, "$$") && exists k :: 2 <= k && At(s, k, "$$")
    ensures MathBlockAt(s).Some? ==> IsMathBlock(s[..MathBlockAt(s).value])
  {
    FindFromIsLeftmost(s, "$$", 2);
    if MathBlockAt(s).Some? {
      var n := MathBlockAt(s).value;
      var b := s[..n];
      AtPrefix(s, n, 0, "$$");
      AtPrefix(s, n, n - 2, "$$");
      forall j | 2 <= j < |b| - 2 ensures !At(b, j, "$$") {
        AtPrefix(s, n, j, "$$");
      }
    }
  }

  /** A display-math block: `$$`, then text without `$$`, then `$$`. */
  predicate IsMathBlock(b: string) {
    && |b| >= 4 && At(b, 0, "$$") && At(b, |b| - 2, "$$")
    && forall k :: 2 <= k < |b| - 2 ==> !At(b, k, "$$")
  }

  /** The closing tag that the back-reference `\1` demands. */
  function Closing(name: string): string {
    End + name + "}"
  }

  /** `\\begin\{([a-zA-Z]*\*?)\}[\s\S]*?\\end\{\1\}` at the start of `s`: the
      captured name and the length of the match. */
  function EnvBlockAt(s: string): (r: Option<(string, nat)>)
    ensures r.Some? ==> 0 < r.value.1 <= |s| && s[0] == '\\'
  {
    match TagAt(s, 0, Begin)
    case None => None
    case Some(e) =>
      assert s[..|Begin|][0] == s[0];
      var name := s[|Begin|..e - 1];
      match FindFrom(s, Closing(name), e)
      case None => None
      case Some(k) => Some((name, k + |Closing(name)|))
  }

  /** An environment block ends at the first closing tag with the name of
      its opening tag. */
  lemma EnvBlockAtShape(s: string)
    ensures EnvBlockAt(s).Some? ==> IsEnvBlock(s[..EnvBlockAt(s).value.1], EnvBlockAt(s).value.0)
  {
    if EnvBlockAt(s).Some? {
      EnvBlockShapeOf(s, EnvBlockAt(s).value.0, EnvBlockAt(s).value.1);
    }
  }

  lemma EnvBlockShapeOf(s: string, name: string, n: nat)
    requires EnvBlockAt(s) == Some((name, n))
    ensures IsEnvBlock(s[..n], name)
  {
    var e := TagAt(s, 0, Begin).value;
    var close := Closing(name);
    assert name == s[|Begin|..e - 1];
    assert |Begin + name + "}"| == e;
    assert FindFrom(s, close, e) == Some(n - |close|);
    TagAtSound(s, 0, Begin);
    OpeningTag(s, e);
    EnvBlockIsWellFormed(s, name, n);
  }

  /** Conversely, text that starts with an environment block is matched
      exactly to the end of that block. */
  lemma EnvBlockAtComplete(s: string, name: string, n: nat)
    requires n <= |s| && IsEnvBlock(s[..n], name)
    ensures EnvBlockAt(s) == Some((name, n))
  {
    var e, k := EnvBlockSearches(s, name, n);
    EnvBlockAtOfLength(s, name, e, k, n);
  }

  lemma EnvBlockAtOfLength(s: string, name: string, e: nat, k: nat, n: nat)
    requires TagAt(s, 0, Begin) == Some(e) && s[|Begin|..e - 1] == name
    requires FindFrom(s, Closing(name), e) == Some(k) && k + |Closing(name)| == n
    ensures EnvBlockAt(s) == Some((name, n))
  {
    EnvBlockAtOf(s, name, e, k);
  }

  /** The two searches of `EnvBlockAt` on text that starts with a block. */
  lemma EnvBlockSearches(s: string, name: string, n: nat) returns (e: nat, k: nat)
    requires n <= |s| && IsEnvBlock(s[..n], name)
    ensures TagAt(s, 0, Begin) == Some(e) && s[|Begin|..e - 1] == name
    ensures FindFrom(s, Closing(name), e) == Some(k) && k + |Closing(name)| == n
  {
    var open := Begin + name + "}";
    var close := Closing(name);
    e, k := |open|, n - |close|;
    AtPrefix(s, n, 0, open);
    assert s[..e] == open;
    OpeningTagOf(s, name);
    AtPrefix(s, n, k, close);
    forall j | e <= j < k ensures !At(s, j, close) {
      AtPrefix(s, n, j, close);
    }
    FindFromFinds(s, close, e, k);
  }

  /** A tag that is found is the opening text followed by the name it carries
      and a closing brace. */
  lemma OpeningTag(s: string, e: nat)
    requires TagAt(s, 0, Begin) == Some(e)
    ensures At(s, 0, Begin + s[|Begin|..e - 1] + "}")
  {
    assert s[..e] == s[..|Begin|] + s[|Begin|..e - 1] + [s[e - 1]];
  }

  lemma EnvBlockIsWellFormed(s: string, name: string, n: nat)
    requires IsEnvName(name) && At(s, 0, Begin + name + "}") && |Closing(name)| <= n
    requires FindFrom(s, Closing(name), |Begin + name + "}"|) == Some(n - |Closing(name)|)
    ensures IsEnvBlock(s[..n], name)
  {
    var open := Begin + name + "}";
    var close := Closing(name);
    var k := n - |close|;
    FindFromIsLeftmost(s, close, |open|);
    AtPrefix(s, n, 0, open);
    AtPrefix(s, n, k, close);
    forall j | |open| <= j < n - |close| ensures !At(s[..n], j, close) {
      AtPrefix(s, n, j, close);
    }
  }

  /** A named environment block: the opening tag, then text in which the
      matching closing tag does not occur, then that closing tag. */
  predicate IsEnvBlock(b: string, name: string) {
    var open := Begin + name + "}";
    var close := Closing(name);
    && IsEnvName(name)
    && |open| + |close| <= |b|
    && At(b, 0, open) && At(b, |b| - |close|, close)
    && forall k :: |open| <= k < |b| - |close| ==> !At(b, k, close)
  }

  /** What the scan finds at one position: a character no alternative
      matches at, a display-math block, or an environment block. */
  datatype Segment = Char(c: char) | Math(block: string) | Env(name: string, block: string)

  predicate WellFormed(g: Segment) {
    match g
    case Char(_) => true
    case Math(b) => IsMathBlock(b)
    case Env(name, b) => IsEnvBlock(b, name)
  }

  /** The text a segment was cut from. */
  function Text(g: Segment): string {
    match g
    case Char(c) => [c]
    case Math(b) => b
    case Env(_, b) => b
  }

  /** What the scan finds at the start of non-empty text: a `$$` block,
      else an environment block, else one plain character. */
  function NextSegment(s: string): (g: Segment)
    requires s != []
    ensures 0 < |Text(g)| <= |s|
  {
    match MathBlockAt(s)
    case Some(n) => Math(s[..n])
    case None =>
      match EnvBlockAt(s)
      case Some((name, n)) => Env(name, s[..n])
      case None => Char(s[0])
  }

  /** The segment found has the shape its pattern describes. */
  lemma NextSegmentShape(s: string)
    requires s != []
    ensures WellFormed(NextSegment(s))
  {
    MathBlockAtShape(s);
    EnvBlockAtShape(s);
  }

  /** The segment found is the text it starts. */
  lemma NextSegmentPrefix(s: string)
    requires s != []
    ensures Text(NextSegment(s)) == s[..|Text(NextSegment(s))|]
  {
  }

  /** The scan of the global `replace`, left to right, `$$` blocks first. */
  function Segments(s: string): seq<Segment>
    decreases |s|
  {
    if s == [] then []
    else
      var g := NextSegment(s);
      [g] + Segments(s[|Text(g)|..])
  }

  /** The scan cuts `s` into segments without losing or reordering anything. */
  lemma {:induction false} SegmentsCover(s: string)
    ensures Source(Segments(s)) == s
    decreases |s|
  {
    if s != [] {
      var g := NextSegment(s);
      var n := |Text(g)|;
      NextSegmentPrefix(s);
      SegmentsCover(s[n..]);
      SegmentsStep(s);
      SourceCons(g, Segments(s[n..]));
      TakeDrop(s, n);
    }
  }

  lemma SegmentsStep(s: string)
    requires s != []
    ensures Segments(s) == [NextSegment(s)] + Segments(s[|Text(NextSegment(s))|..])
  {
  }

  lemma SourceCons(g: Segment, gs: seq<Segment>)
    ensures Source([g] + gs) == Text(g) + Source(gs)
  {
    assert ([g] + gs)[1..] == gs;
  }

  /** Every segment the scan cuts out has the shape its pattern describes. */
  lemma {:induction false} SegmentsWellFormed(s: string)
    ensures forall g | g in Segments(s) :: WellFormed(g)
    decreases |s|
  {
    if s != [] {
      var rest := SegmentsFirst(s);
      SegmentsWellFormed(rest);
    }
  }

  /** The first segment has its shape, and the others are the segments of
      the text after it. */
  lemma SegmentsFirst(s: string) returns (rest: string)
    requires s != []
    ensures |rest| < |s| && Segments(s) == [NextSegment(s)] + Segments(rest)
    ensures WellFormed(NextSegment(s))
  {
    SegmentsStep(s);
    NextSegmentShape(s);
    rest := s[|Text(NextSegment(s))|..];
  }

  /** The text the segments were cut from. */
  function Source(gs: seq<Segment>): string {
    if gs == [] then [] else Text(gs[0]) + Source(gs[1..])
  }

  /** The replacement callback: a match starting with `$$` is returned as
      it is, any other match is wrapped in `$$\n` and `\n$$`. */
  function Replacement(g: Segment): string {
    match g
    case Char(c) => [c]
    case Math(b) => b
    case Env(_, b) => "$$\n" + b + "\n$$"
  }

  function Rendered(gs: seq<Segment>): string {
    if gs == [] then [] else Replacement(gs[0]) + Rendered(gs[1..])
  }

  function AutoWrap(s: string): string {
    Rendered(Segments(s))
  }

  /** The pass only adds `$` and line feeds: a pattern with neither that
      does not occur in the input (after any text `x` already written) does
      not occur in the output. */
  lemma {:induction false} RenderedAbsent(x: string, gs: seq<Segment>, pat: string)
    requires pat != [] && Lacks(pat, '$') && Lacks(pat, '\n')
    requires Absent(x + Source(gs), pat)
    ensures Absent(x + Rendered(gs), pat)
    decreases |gs|
  {
    if gs == [] {
      assert x + Source(gs) == x + Rendered(gs);
    } else {
      var g, rest := gs[0], gs[1..];
      assert Source(gs) == Text(g) + Source(rest);
      assert Rendered(gs) == Replacement(g) + Rendered(rest);
      Assoc(x, Text(g), Source(rest));
      ReplacementAbsent(x, g, Source(rest), pat);
      var y := x + Replacement(g);
      RenderedAbsent(y, rest, pat);
      Assoc(x, Replacement(g), Rendered(rest));
    }
  }

  /** One replacement keeps a pattern without `$` and line feeds absent. */
  lemma ReplacementAbsent(x: string, g: Segment, r: string, pat: string)
    requires pat != [] && Lacks(pat, '$') && Lacks(pat, '\n')
    requires Absent(x + Text(g) + r, pat)
    ensures Absent(x + Replacement(g) + r, pat)
  {
    if g.Env? {
      var open, close := "$$\n", "\n$$";
      var b := g.block;
      Assoc(x, b, r);
      AbsentInsert(x, open, b + r, pat);
      Assoc(x, open, b + r);
      Assoc(x + open, b, r);
      AbsentInsert(x + open + b, close, r, pat);
      assert x + open + b + close == x + Replacement(g);
    }
  }

  /** Auto-wrapping cannot create the placeholder prefix of the next pass, or
      any other pattern without `$` and line feeds. */
  lemma AutoWrapKeepsAbsent(s: string, pat: string)
    requires pat != [] && Lacks(pat, '$') && Lacks(pat, '\n')
    requires Absent(s, pat)
    ensures Absent(AutoWrap(s), pat)
  {
    SegmentsCover(s);
    assert [] + Source(Segments(s)) == s;
    RenderedAbsent([], Segments(s), pat);
    assert [] + AutoWrap(s) == AutoWrap(s);
  }

  /** A block already written between `$$` delimiters is not wrapped again. */
  lemma AutoWrapKeepsMathBlock(s: string)
    requires IsMathBlock(s)
    ensures AutoWrap(s) == s
  {
    FindFromFinds(s, "$$", 2, |s| - 2);
    WholeSegment(s, Math(s));
  }

  /** A bare environment is wrapped in display-math delimiters, each on its
      own line, whatever commands and line breaks its body holds. */
  lemma AutoWrapWrapsEnvironment(s: string, name: string)
    requires IsEnvBlock(s, name)
    ensures AutoWrap(s) == "$$\n" + s + "\n$$"
  {
    assert s[..|s|] == s;
    EnvBlockAtComplete(s, name, |s|);
    assert s[0] == (Begin + name + "}")[0] == '\\';
    WholeSegment(s, Env(name, s));
  }

  /** Text that is one whole match renders as that match's replacement. */
  lemma WholeSegment(s: string, g: Segment)
    requires |s| > 0
    requires g == Math(s) ==> MathBlockAt(s) == Some(|s|)
    requires g.Env? ==> g.block == s && MathBlockAt(s).None? && EnvBlockAt(s) == Some((g.name, |s|))
    requires g == Math(s) || g.Env?
    ensures AutoWrap(s) == Replacement(g)
  {
    assert s[..|s|] == s;
    assert NextSegment(s) == g;
    assert s[|Text(g)|..] == [];
    assert Segments(s) == [g];
    assert Rendered([g]) == Replacement(g) + Rendered([]);
  }

  /** Text that starts with an opening tag: the tag and its name are found. */
  lemma OpeningTagOf(s: string, name: string)
    requires IsEnvName(name) && |Begin + name + "}"| <= |s|
    requires s[..|Begin + name + "}"|] == Begin + name + "}"
    ensures TagAt(s, 0, Begin) == Some(|Begin + name + "}"|)
    ensures s[|Begin|..|Begin + name + "}"| - 1] == name
  {
    var pre := Begin + name + "}";
    TagAtComplete(s, 0, Begin, name);
    assert s[|Begin|..|pre| - 1] == s[..|pre|][|Begin|..|pre| - 1];
  }

  /** `EnvBlockAt` assembled from its two searches. */
  lemma EnvBlockAtOf(s: string, name: string, e: nat, k: nat)
    requires TagAt(s, 0, Begin) == Some(e) && s[|Begin|..e - 1] == name
    requires FindFrom(s, Closing(name), e) == Some(k)
    ensures EnvBlockAt(s) == Some((name, k + |Closing(name)|))
  {
  }

  /** A bare `align` environment is wrapped. */
  lemma AutoWrapBareExample(env: string)
    requires env == "\\begin{align}x=1\\end{align}"
    ensures AutoWrap(env) == "$$\n" + env + "\n$$"
  {
    var name := "align";
    var close := Closing(name);
    assert env[..|Begin + name + "}"|] == Begin + name + "}";
    assert At(env, |env| - |close|, close) by { assert env[|env| - |close|..] == close; }
    forall k | |Begin + name + "}"| <= k < |env| - |close| ensures !At(env, k, close) {
      assert env[k] != close[0];
    }
    AutoWrapWrapsEnvironment(env, name);
  }

  /** An environment whose body holds a line break `\\` is wrapped whole. */
  lemma AutoWrapLineBreakExample(env: string)
    requires env == "\\begin{align}a\\\\b\\end{align}"
    ensures AutoWrap(env) == "$$\n" + env + "\n$$"
  {
    var name := "align";
    var close := Closing(name);
    assert env[..|Begin + name + "}"|] == Begin + name + "}";
    assert At(env, |env| - |close|, close) by { assert env[|env| - |close|..] == close; }
    forall k | |Begin + name + "}"| <= k < |env| - |close| ensures !At(env, k, close) {
      assert env[k + 1] != close[1];
    }
    AutoWrapWrapsEnvironment(env, name);
  }

  /** The same environment between `$$` delimiters is left as it is. */
  lemma AutoWrapDelimitedExample(env: string)
    requires env == "\\begin{align}x=1\\end{align}"
    ensures AutoWrap("$$" + env + "$$") == "$$" + env + "$$"
  {
    var s := "$$" + env + "$$";
    forall k | 2 <= k < |s| - 2 ensures !At(s, k, "$$") {
      assert s[k] == env[k - 2];
    }
    assert At(s, |s| - 2, "$$") by { assert s[|s| - 2..] == "$$"; }
    AutoWrapKeepsMathBlock(s);
  }
}
