/**
  The shield and restore passes of the preview.

  Before the emphasis passes run, one global `replace` with the pattern
  `(```[\s\S]*?```|`[^`]*?`|\$\$[\s\S]*?\$\$|\\begin\{[a-zA-Z]*\*?\}[\s\S]*?\\end\{[a-zA-Z]*\*?\})`
  replaces every fenced code block, inline code span, display-math block and
  LaTeX environment by the placeholder `__CJK_PROT_i__`, where `i` counts the
  blocks pushed so far onto the list of originals. After the emphasis passes,
  `__CJK_PROT_(\d+)__` is replaced by the original with that index.

  The scan is modelled as a sequence of pieces: a character no alternative
  matches at, or a protected block with its index. `Shielded` is the text the
  emphasis passes see, `Unshielded` the text the pieces were cut from.
 */
module Shield {

  import opened Wrappers
  import opened Strings
  import AutoWrap

  /** The text every placeholder starts with. */
  const Prefix := "__CJK_PROT_"

  /** The placeholder for the block with index `i`. */
  function Placeholder(i: nat): (p: string)
    ensures At(p, 0, Prefix) && |p| >= |Prefix| + 3
  {
    Prefix + Decimal(i) + "__"
  }

  /** The alternative ```` ```[\s\S]*?``` ````: a fenced block. */
  function FenceAt(s: string): (r: Option<nat>)
    ensures r.Some? ==> 6 <= r.value <= |s| && s[0] == '`'
  {
    if At(s, 0, "```") then
      match FindFrom(s, "```", 3)
      case Some(k) => Some(k + 3)
      case None => None
    else None
  }

  /** A fenced block ends at the first triple backtick after the opening one;
      there is none when no triple backtick follows. */
  lemma FenceAtShape(s: string)
    ensures FenceAt(s).Some? ==>
              var n := FenceAt(s).value;
              && At(s, 0, "```") && At(s, n - 3, "```")
              && forall k :: 3 <= k < n - 3 ==> !At(s, k, "```")
    ensures FenceAt(s).None? ==> !At(s, 0, "```") || forall k :: 3 <= k ==> !At(s, k, "```")
  {
    FindFromIsLeftmost(s, "```", 3);
  }

  /** The alternative `` `[^`]*?` ``: an inline code span. */
  function CodeAt(s: string): (r: Option<nat>)
    ensures r.Some? ==> 2 <= r.value <= |s| && s[0] == '`'
  {
    if |s| > 0 && s[0] == '`' then
      match FindFrom(s, "`", 1)
      case Some(k) => Some(k + 1)
      case None => None
    else None
  }

  /** An inline code span ends at the next backtick, on the same line or not. */
  lemma CodeAtShape(s: string)
    ensures CodeAt(s).Some? ==>
              var n := CodeAt(s).value;
              s[n - 1] == '`' && forall k :: 1 <= k < n - 1 ==> s[k] != '`'
    ensures CodeAt(s).None? && |s| > 0 && s[0] == '`' ==> forall k :: 1 <= k < |s| ==> s[k] != '`'
  {
    if |s| > 0 && s[0] == '`' {
      FindFromIsLeftmost(s, "`", 1);
      match FindFrom(s, "`", 1)
      case Some(k) =>
        assert s[k..k + 1][0] == s[k];
        forall j | 1 <= j < k ensures s[j] != '`' {
          assert !At(s, j, "`");
          assert s[j..j + 1] == [s[j]];
        }
      case None =>
        forall j | 1 <= j < |s| ensures s[j] != '`' {
          assert !At(s, j, "`");
          assert s[j..j + 1] == [s[j]];
        }
    }
  }

  /** The first closing tag `\end{NAME}`, whatever its name, at or after `from`. */
  function FindEnd(s: string, from: nat): (r: Option<nat>)
    requires from <= |s|
    ensures r.Some? ==> from <= r.value <= |s| && AutoWrap.TagAt(s, r.value, AutoWrap.End).Some?
    decreases |s| - from
  {
    if AutoWrap.TagAt(s, from, AutoWrap.End).Some? then Some(from)
    else if from == |s| then None
    else FindEnd(s, from + 1)
  }

  /** No closing tag lies between `from` and the one `FindEnd` finds, and none
      lies after `from` when it finds none. */
  lemma {:induction false} FindEndIsFirst(s: string, from: nat)
    requires from <= |s|
    ensures FindEnd(s, from).Some? ==>
              forall k :: from <= k < FindEnd(s, from).value ==> AutoWrap.TagAt(s, k, AutoWrap.End).None?
    ensures FindEnd(s, from).None? ==> forall k :: from <= k <= |s| ==> AutoWrap.TagAt(s, k, AutoWrap.End).None?
    decreases |s| - from
  {
    if AutoWrap.TagAt(s, from, AutoWrap.End).None? && from < |s| {
      FindEndIsFirst(s, from + 1);
    }
  }

  /** The alternative for environments. */
  function EnvAt(s: string): (r: Option<nat>)
    ensures r.Some? ==> 0 < r.value <= |s| && s[0] == '\\'
  {
    match AutoWrap.TagAt(s, 0, AutoWrap.Begin)
    case None => None
    case Some(e) =>
      assert s[..|AutoWrap.Begin|][0] == s[0];
      match FindEnd(s, e)
      case None => None
      case Some(k) => AutoWrap.TagAt(s, k, AutoWrap.End)
  }

  /** Unlike the auto-wrap pattern, the environment alternative has no
      back-reference: the block runs from an opening tag to the first closing
      tag of any name. */
  lemma EnvAtShape(s: string)
    ensures EnvAt(s).Some? ==>
              && AutoWrap.TagAt(s, 0, AutoWrap.Begin).Some?
              && var e := AutoWrap.TagAt(s, 0, AutoWrap.Begin).value;
                 exists k :: && e <= k <= |s| && AutoWrap.TagAt(s, k, AutoWrap.End) == Some(EnvAt(s).value)
                             && forall j :: e <= j < k ==> AutoWrap.TagAt(s, j, AutoWrap.End).None?
  {
    match AutoWrap.TagAt(s, 0, AutoWrap.Begin)
    case None =>
    case Some(e) =>
      FindEndIsFirst(s, e);
  }

  /** Conversely, an opening tag followed by any closing tag is always found,
      and the block ends at the closing tag when no other lies before it. */
  lemma EnvAtComplete(s: string, k: nat)
    requires AutoWrap.TagAt(s, 0, AutoWrap.Begin).Some?
    requires AutoWrap.TagAt(s, 0, AutoWrap.Begin).value <= k <= |s|
    requires AutoWrap.TagAt(s, k, AutoWrap.End).Some?
    ensures EnvAt(s).Some?
    ensures (forall j :: AutoWrap.TagAt(s, 0, AutoWrap.Begin).value <= j < k ==> AutoWrap.TagAt(s, j, AutoWrap.End).None?) ==>
              EnvAt(s) == AutoWrap.TagAt(s, k, AutoWrap.End)
  {
    FindEndIsFirst(s, AutoWrap.TagAt(s, 0, AutoWrap.Begin).value);
  }

  /** The four alternatives, tried in order at the start of `s`: the length of
      the protected block found there. */
  function ProtectAt(s: string): (r: Option<nat>)
    ensures r.Some? ==> 0 < r.value <= |s| && (s[0] == '`' || s[0] == '$' || s[0] == '\\')
  {
    if FenceAt(s).Some? then FenceAt(s)
    else if CodeAt(s).Some? then CodeAt(s)
    else if AutoWrap.MathBlockAt(s).Some? then AutoWrap.MathBlockAt(s)
    else EnvAt(s)
  }

  /** What the shield scan finds at one position. */
  datatype Piece = Char(c: char) | Prot(index: nat, original: string)

  /** One piece as the emphasis passes see it. */
  function Hidden(p: Piece): string {
    match p
    case Char(c) => [c]
    case Prot(i, _) => Placeholder(i)
  }

  /** One piece as it was in the text. */
  function Shown(p: Piece): string {
    match p
    case Char(c) => [c]
    case Prot(_, o) => o
  }

  /** The text the emphasis passes see: placeholders instead of blocks. */
  function Shielded(ps: seq<Piece>): string {
    if ps == [] then [] else Hidden(ps[0]) + Shielded(ps[1..])
  }

  /** The text the pieces were cut from. */
  function Unshielded(ps: seq<Piece>): string {
    if ps == [] then [] else Shown(ps[0]) + Unshielded(ps[1..])
  }

  /** The list of originals, in scan order. */
  function Originals(ps: seq<Piece>): seq<string> {
    if ps == [] then []
    else if ps[0].Prot? then [ps[0].original] + Originals(ps[1..])
    else Originals(ps[1..])
  }

  /** The protected blocks are numbered `next`, `next + 1`, ... in scan order. */
  predicate NumberedFrom(ps: seq<Piece>, next: nat) {
    ps == [] ||
    match ps[0]
    case Char(_) => NumberedFrom(ps[1..], next)
    case Prot(i, _) => i == next && NumberedFrom(ps[1..], next + 1)
  }

  /** The shield scan of `s`, numbering the blocks from `next` on. */
  function ShieldPieces(s: string, next: nat): seq<Piece>
    decreases |s|
  {
    if s == [] then []
    else
      match ProtectAt(s)
      case Some(n) => [Prot(next, s[..n])] + ShieldPieces(s[n..], next + 1)
      case None => [Char(s[0])] + ShieldPieces(s[1..], next)
  }

  /** The scan cuts `s` into pieces without losing or reordering anything, and
      numbers the blocks consecutively. */
  lemma {:induction false} ShieldPiecesCover(s: string, next: nat)
    ensures Unshielded(ShieldPieces(s, next)) == s
    ensures NumberedFrom(ShieldPieces(s, next), next)
    decreases |s|
  {
    if s != [] {
      var ps := ShieldPieces(s, next);
      match ProtectAt(s)
      case Some(n) =>
        ShieldPiecesCover(s[n..], next + 1);
        assert ps[1..] == ShieldPieces(s[n..], next + 1);
        assert s == s[..n] + s[n..];
      case None =>
        ShieldPiecesCover(s[1..], next);
        assert ps[1..] == ShieldPieces(s[1..], next);
        HeadTail(s);
    }
  }

  lemma {:induction false} ShieldedAppend(a: seq<Piece>, b: seq<Piece>)
    ensures Shielded(a + b) == Shielded(a) + Shielded(b)
    decreases |a|
  {
    if a == [] {
      assert a + b == b;
    } else {
      assert (a + b)[0] == a[0] && (a + b)[1..] == a[1..] + b;
      ShieldedAppend(a[1..], b);
    }
  }

  lemma {:induction false} OriginalsAppend(a: seq<Piece>, b: seq<Piece>)
    ensures Originals(a + b) == Originals(a) + Originals(b)
    decreases |a|
  {
    if a == [] {
      assert a + b == b;
    } else {
      assert (a + b)[0] == a[0] && (a + b)[1..] == a[1..] + b;
      OriginalsAppend(a[1..], b);
    }
  }

  /** The shield pass: the accumulator `blocks` grows by one original per
      protected block, and `value` receives the placeholder that indexes it. */
  method Shield(s: string) returns (value: string, blocks: seq<string>)
    ensures value == Shielded(ShieldPieces(s, 0)) && blocks == Originals(ShieldPieces(s, 0))
    ensures Absent(s, Prefix) ==> Restore(value, blocks) == s
  {
    value, blocks := [], [];
    ghost var total := ShieldPieces(s, 0);
    ghost var done: seq<Piece> := [];
    var i := 0;
    assert s[0..] == s;
    while i < |s|
      invariant i <= |s|
      invariant done + ShieldPieces(s[i..], |blocks|) == total
      invariant value == Shielded(done) && blocks == Originals(done)
    {
      var next := |blocks|;
      var n, isBlock := NextMatch(s, i);
      var after := i + n;
      var piece := if isBlock then Prot(next, s[i..after]) else Char(s[i]);
      ghost var count := if isBlock then next + 1 else next;
      Advance(s, i, n, isBlock, next, done, total, after, piece, count);
      AppendPiece(done, piece);
      done := done + [piece];
      value := value + Hidden(piece);
      blocks := blocks + (if isBlock then [s[i..after]] else []);
      assert |blocks| == count;
      i := after;
    }
    assert s[i..] == [];
    assert done == total by { assert done + [] == done; }
    if Absent(s, Prefix) {
      ShieldThenRestore(s);
    }
  }

  /** One search step of the global `replace`: the length of the protected
      block at index `i`, or one character to copy. */
  method NextMatch(s: string, i: nat) returns (n: nat, isBlock: bool)
    requires i < |s|
    ensures isBlock <==> ProtectAt(s[i..]).Some?
    ensures isBlock ==> n == ProtectAt(s[i..]).value
    ensures !isBlock ==> n == 1
  {
    match ProtectAt(s[i..])
    case Some(m) =>
      n, isBlock := m, true;
    case None =>
      n, isBlock := 1, false;
  }

  /** The pieces scanned so far, the piece found at index `i` and the scan
      after it still make up the whole scan. */
  lemma Advance(s: string, i: nat, n: nat, isBlock: bool, next: nat, done: seq<Piece>, total: seq<Piece>,
                after: nat, piece: Piece, count: nat)
    requires i < |s| && done + ShieldPieces(s[i..], next) == total
    requires isBlock <==> ProtectAt(s[i..]).Some?
    requires isBlock ==> n == ProtectAt(s[i..]).value
    requires !isBlock ==> n == 1
    requires after == i + n
    requires piece == if isBlock then Prot(next, s[i..after]) else Char(s[i])
    requires count == if isBlock then next + 1 else next
    ensures i < after <= |s|
    ensures done + [piece] + ShieldPieces(s[after..], count) == total
  {
    if isBlock {
      ScanBlock(s, i, after, next);
    } else {
      ScanChar(s, i, after, next);
    }
    Assoc(done, [piece], ShieldPieces(s[after..], count));
  }

  /** A protected block found at index `i` and ending at `after` is the next
      piece of the scan. */
  lemma ScanBlock(s: string, i: nat, after: nat, next: nat)
    requires i < after <= |s| && ProtectAt(s[i..]) == Some(after - i)
    ensures ShieldPieces(s[i..], next) == [Prot(next, s[i..after])] + ShieldPieces(s[after..], next + 1)
  {
    var t, m := s[i..], after - i;
    assert t[m..] == s[after..] && t[..m] == s[i..after];
    BlockStep(t, m, next);
  }

  /** A block of length `m` at the start of `s` is the first piece. */
  lemma BlockStep(s: string, m: nat, next: nat)
    requires s != [] && ProtectAt(s) == Some(m)
    ensures ShieldPieces(s, next) == [Prot(next, s[..m])] + ShieldPieces(s[m..], next + 1)
  {
  }

  /** A character copied at index `i` is the next piece of the scan. */
  lemma ScanChar(s: string, i: nat, after: nat, next: nat)
    requires i < |s| && after == i + 1 && ProtectAt(s[i..]).None?
    ensures ShieldPieces(s[i..], next) == [Char(s[i])] + ShieldPieces(s[after..], next)
  {
    ShieldStep(s[i..], next);
    assert s[i..][1..] == s[after..];
  }

  /** Appending one piece appends its text and, for a block, its original. */
  lemma AppendPiece(done: seq<Piece>, p: Piece)
    ensures Shielded(done + [p]) == Shielded(done) + Hidden(p)
    ensures Originals(done + [p]) == Originals(done) + (if p.Prot? then [p.original] else [])
  {
    ShieldedAppend(done, [p]);
    OriginalsAppend(done, [p]);
    assert Shielded([p]) == Hidden(p) + Shielded([]);
  }

  /** One step of the scan. */
  lemma ShieldStep(s: string, next: nat)
    requires s != []
    ensures ProtectAt(s).Some? ==>
              ShieldPieces(s, next) == [Prot(next, s[..ProtectAt(s).value])] + ShieldPieces(s[ProtectAt(s).value..], next + 1)
    ensures ProtectAt(s).None? ==> ShieldPieces(s, next) == [Char(s[0])] + ShieldPieces(s[1..], next)
  {
  }

  /** `__CJK_PROT_(\d+)__` at the start of `s`: the length of the reference.
      The digit run is maximal, since `_` is not a digit. */
  function RefAt(s: string): (r: Option<nat>)
    ensures r.Some? ==> |Prefix| + 3 <= r.value <= |s| && At(s, 0, Prefix) && At(s, r.value - 2, "__")
    ensures r.Some? ==> IsDecimal(s[|Prefix|..r.value - 2])
  {
    if !At(s, 0, Prefix) then None
    else
      var j := Run(s, |Prefix|, Digit);
      if j > |Prefix| && At(s, j, "__") then Some(j + 2) else None
  }

  /** `protectedBlocks[i]` for the captured digits: an array index only when the
      numeral is canonical, and `undefined` (written out as text by
      `replace`) when it is not or when it is past the end of the list. */
  function Lookup(digits: string, blocks: seq<string>): (r: string)
    requires IsDecimal(digits)
    ensures forall i: nat :: i < |blocks| && Decimal(i) == digits ==> r == blocks[i]
    ensures (forall i: nat :: i < |blocks| ==> Decimal(i) != digits) ==> r == "undefined"
  {
    IndexNumeral(digits);
    if IsCanonical(digits) && ParseDecimal(digits) < |blocks| then blocks[ParseDecimal(digits)]
    else "undefined"
  }

  /** The numerals that name an array index are exactly the canonical ones,
      each naming its own value. */
  lemma IndexNumeral(digits: string)
    requires IsDecimal(digits)
    ensures forall i: nat :: Decimal(i) == digits ==> IsCanonical(digits) && ParseDecimal(digits) == i
    ensures IsCanonical(digits) ==> Decimal(ParseDecimal(digits)) == digits
  {
    forall i: nat | Decimal(i) == digits
      ensures IsCanonical(digits) && ParseDecimal(digits) == i
    {
      ParseDecimalOfDecimal(i);
    }
    if IsCanonical(digits) {
      DecimalOfParseDecimal(digits);
    }
  }

  /** The restore pass. */
  function Restore(s: string, blocks: seq<string>): string
    decreases |s|
  {
    if s == [] then []
    else
      match RefAt(s)
      case Some(n) => Lookup(s[|Prefix|..n - 2], blocks) + Restore(s[n..], blocks)
      case None => [s[0]] + Restore(s[1..], blocks)
  }

  /** Text without any placeholder prefix passes through the restore pass unchanged. */
  lemma {:induction false} RestoreWithoutReferences(s: string, blocks: seq<string>)
    requires Absent(s, Prefix)
    ensures Restore(s, blocks) == s
    decreases |s|
  {
    if s != [] {
      assert !At(s, 0, Prefix);
      assert Absent(s[1..], Prefix) by {
        forall k | 0 <= k <= |s[1..]| ensures !At(s[1..], k, Prefix) {
          assert !At(s, k + 1, Prefix);
          if k + |Prefix| <= |s[1..]| {
            assert s[1..][k..k + |Prefix|] == s[k + 1..k + 1 + |Prefix|];
          }
        }
      }
      RestoreWithoutReferences(s[1..], blocks);
      HeadTail(s);
    }
  }

  /** A placeholder is read back as a reference to its own index, whatever follows it. */
  lemma PlaceholderIsReference(i: nat, rest: string)
    ensures RefAt(Placeholder(i) + rest) == Some(|Placeholder(i)|)
    ensures (Placeholder(i) + rest)[|Prefix|..|Placeholder(i)| - 2] == Decimal(i)
  {
    var s := Placeholder(i) + rest;
    var j := |Prefix| + |Decimal(i)|;
    PlaceholderDigits(i, rest);
    PlaceholderClosing(i, rest);
    RefAtIs(s, j);
  }

  /** The digits of a placeholder are one run, right after the prefix. */
  lemma PlaceholderDigits(i: nat, rest: string)
    ensures var s, d := Placeholder(i) + rest, Decimal(i);
            && At(s, 0, Prefix)
            && Run(s, |Prefix|, Digit) == |Prefix| + |d|
            && s[|Prefix|..|Prefix| + |d|] == d
  {
    var s, d := Placeholder(i) + rest, Decimal(i);
    var j := |Prefix| + |d|;
    assert s[..|Prefix|] == Prefix;
    forall k | |Prefix| <= k < j ensures In(s[k], Digit) {
      assert s[k] == d[k - |Prefix|];
    }
    assert s[j] == '_';
    RunIs(s, |Prefix|, Digit, j);
    assert s[|Prefix|..j] == d;
  }

  /** A placeholder ends with `__` after its digits. */
  lemma PlaceholderClosing(i: nat, rest: string)
    ensures var s := Placeholder(i) + rest;
            |Placeholder(i)| == |Prefix| + |Decimal(i)| + 2
            && At(s, |Prefix| + |Decimal(i)|, "__")
  {
    var s := Placeholder(i) + rest;
    var j := |Prefix| + |Decimal(i)|;
    assert s[j..j + 2] == "__";
  }

  /** The reference pattern at a run of digits already found. */
  lemma RefAtIs(s: string, j: nat)
    requires At(s, 0, Prefix) && |Prefix| < j && Run(s, |Prefix|, Digit) == j && At(s, j, "__")
    ensures RefAt(s) == Some(j + 2)
  {
  }

  /** The restore pass maps the placeholder of index `i` back to `blocks[i]`. */
  lemma LookupOfPlaceholder(i: nat, blocks: seq<string>)
    requires i < |blocks|
    ensures Lookup(Decimal(i), blocks) == blocks[i]
  {
    ParseDecimalOfDecimal(i);
  }

  /** No reference starts inside a stretch of plain text that lacks the prefix
      and is followed by nothing or by a placeholder: the only overlap of a
      prefix with a following placeholder would put `_` where a digit is
      required. */
  lemma NoReferenceAcross(w: string, u: string)
    requires |w| >= 1 && Absent(w, Prefix)
    requires u == [] || At(u, 0, Prefix) || u[0] !in Prefix
    ensures RefAt(w + u) == None
  {
    var s := w + u;
    if |w| >= |Prefix| {
      assert s[..|Prefix|] == w[..|Prefix|];
      assert !At(w, 0, Prefix);
      assert !At(s, 0, Prefix);
    } else if u == [] {
      assert !At(s, 0, Prefix);
    } else if !At(u, 0, Prefix) {
      assert Prefix[|w|] in Prefix;
      assert s[|w|] == u[0];
      assert |s| < |Prefix| || s[..|Prefix|][|w|] != Prefix[|w|];
    } else {
      var j := |Prefix| - |w|;
      assert s[|Prefix|] == u[j] == u[..|Prefix|][j] == Prefix[j];
      assert !IsDigit(Prefix[j]);
      assert Run(s, |Prefix|, Digit) == |Prefix|;
    }
  }

  /** The restore pass sees a reference exactly where a placeholder was put:
      no reference starts at a plain character. */
  predicate Clean(ps: seq<Piece>) {
    ps == [] || ((ps[0].Char? ==> RefAt(Shielded(ps)) == None) && Clean(ps[1..]))
  }

  lemma {:induction false} AbsentSplit(a: string, b: string)
    requires Absent(a + b, Prefix)
    ensures Absent(a, Prefix) && Absent(b, Prefix)
  {
    var s := a + b;
    forall k | 0 <= k <= |a| ensures !At(a, k, Prefix) {
      if At(a, k, Prefix) {
        assert s[k..k + |Prefix|] == a[k..k + |Prefix|];
        assert At(s, k, Prefix);
      }
    }
    forall k | 0 <= k <= |b| ensures !At(b, k, Prefix) {
      if At(b, k, Prefix) {
        assert s[|a| + k..|a| + k + |Prefix|] == b[k..k + |Prefix|];
        assert At(s, |a| + k, Prefix);
      }
    }
  }

  /** Plain text `pre` followed by the pieces holds no reference at its start. */
  lemma {:induction false} NoReferenceAfterPlainText(pre: string, ps: seq<Piece>)
    requires |pre| >= 1 && Absent(pre + Unshielded(ps), Prefix)
    ensures RefAt(pre + Shielded(ps)) == None
    decreases |ps|
  {
    if ps == [] {
      assert pre + Unshielded(ps) == pre && pre + Shielded(ps) == pre;
      NoReferenceAcross(pre, []);
    } else {
      match ps[0]
      case Char(c) =>
        Assoc(pre, [c], Unshielded(ps[1..]));
        Assoc(pre, [c], Shielded(ps[1..]));
        NoReferenceAfterPlainText(pre + [c], ps[1..]);
      case Prot(i, o) =>
        AbsentSplit(pre, Unshielded(ps));
        AtAppend(Placeholder(i), Shielded(ps[1..]), 0, Prefix);
        NoReferenceAcross(pre, Shielded(ps));
    }
  }

  /** Text free of the placeholder prefix shields into clean pieces. */
  lemma {:induction false} CleanWhenAbsent(ps: seq<Piece>)
    requires Absent(Unshielded(ps), Prefix)
    ensures Clean(ps)
    decreases |ps|
  {
    if ps != [] {
      var head := match ps[0] case Char(c) => [c] case Prot(_, o) => o;
      assert Unshielded(ps) == head + Unshielded(ps[1..]);
      AbsentSplit(head, Unshielded(ps[1..]));
      CleanWhenAbsent(ps[1..]);
      if ps[0].Char? {
        NoReferenceAfterPlainText([ps[0].c], ps[1..]);
      }
    }
  }

  /** Restoring clean pieces whose placeholders index `blocks` gives back the
      text the pieces were cut from. */
  lemma {:induction false} RestorePieces(ps: seq<Piece>, blocks: seq<string>, next: nat)
    requires Clean(ps) && NumberedFrom(ps, next)
    requires next + |Originals(ps)| <= |blocks|
    requires blocks[next..next + |Originals(ps)|] == Originals(ps)
    ensures Restore(Shielded(ps), blocks) == Unshielded(ps)
    decreases |ps|
  {
    if ps != [] {
      var after := if ps[0].Prot? then next + 1 else next;
      RestoreTail(ps, blocks, next);
      RestorePieces(ps[1..], blocks, after);
      RestoreCons(ps, blocks);
    }
  }

  /** What the pieces after the first need for `RestorePieces`, and what the
      first piece needs for `RestoreCons`. */
  lemma RestoreTail(ps: seq<Piece>, blocks: seq<string>, next: nat)
    requires ps != [] && Clean(ps) && NumberedFrom(ps, next)
    requires next + |Originals(ps)| <= |blocks|
    requires blocks[next..next + |Originals(ps)|] == Originals(ps)
    ensures var after := if ps[0].Prot? then next + 1 else next;
            && Clean(ps[1..]) && NumberedFrom(ps[1..], after)
            && after + |Originals(ps[1..])| <= |blocks|
            && blocks[after..after + |Originals(ps[1..])|] == Originals(ps[1..])
    ensures ps[0].Prot? ==> ps[0].index < |blocks| && blocks[ps[0].index] == ps[0].original
  {
    var rest := ps[1..];
    if ps[0].Prot? {
      var m := |Originals(rest)|;
      assert Originals(ps) == [ps[0].original] + Originals(rest);
      assert blocks[next + 1..next + 1 + m] == blocks[next..next + 1 + m][1..];
    }
  }

  /** One piece in front of pieces that restore correctly. */
  lemma RestoreCons(ps: seq<Piece>, blocks: seq<string>)
    requires ps != [] && (ps[0].Char? ==> RefAt(Shielded(ps)) == None)
    requires ps[0].Prot? ==> ps[0].index < |blocks| && blocks[ps[0].index] == ps[0].original
    requires Restore(Shielded(ps[1..]), blocks) == Unshielded(ps[1..])
    ensures Restore(Shielded(ps), blocks) == Unshielded(ps)
  {
    match ps[0]
    case Char(c) => RestoreChar(c, Shielded(ps[1..]), blocks);
    case Prot(i, o) => RestorePlaceholder(i, Shielded(ps[1..]), blocks);
  }

  /** A character at which no reference starts is copied. */
  lemma RestoreChar(c: char, rest: string, blocks: seq<string>)
    requires RefAt([c] + rest) == None
    ensures Restore([c] + rest, blocks) == [c] + Restore(rest, blocks)
  {
    assert ([c] + rest)[1..] == rest;
  }

  /** A placeholder is replaced by the original it indexes. */
  lemma RestorePlaceholder(i: nat, rest: string, blocks: seq<string>)
    requires i < |blocks|
    ensures Restore(Placeholder(i) + rest, blocks) == blocks[i] + Restore(rest, blocks)
  {
    var p := Placeholder(i);
    var s := p + rest;
    PlaceholderIsReference(i, rest);
    RestoreReference(s, |p|, blocks);
    DropAppend(p, rest);
    LookupOfPlaceholder(i, blocks);
  }

  /** A reference is replaced by the original its digits look up. */
  lemma RestoreReference(s: string, n: nat, blocks: seq<string>)
    requires RefAt(s) == Some(n)
    ensures Restore(s, blocks) == Lookup(s[|Prefix|..n - 2], blocks) + Restore(s[n..], blocks)
  {
  }

  /** Shield followed by restore gives back the input exactly, when the input
      does not already contain the placeholder prefix. */
  lemma ShieldThenRestore(s: string)
    requires Absent(s, Prefix)
    ensures Restore(Shielded(ShieldPieces(s, 0)), Originals(ShieldPieces(s, 0))) == s
  {
    var ps := ShieldPieces(s, 0);
    ShieldPiecesCover(s, 0);
    CleanWhenAbsent(ps);
    RestorePieces(ps, Originals(ps), 0);
  }

  /** Text with no backtick, dollar sign or backslash has nothing to protect. */
  lemma {:induction false} NothingToProtect(s: string, next: nat)
    requires Lacks(s, '`') && Lacks(s, '$') && Lacks(s, '\\')
    ensures Shielded(ShieldPieces(s, next)) == s && Originals(ShieldPieces(s, next)) == []
    decreases |s|
  {
    if s != [] {
      assert ProtectAt(s).None?;
      NothingToProtect(s[1..], next);
    }
  }

  /** A placeholder holds no star, so the emphasis passes cannot split it. */
  lemma PlaceholderHasNoStar(i: nat)
    ensures Lacks(Placeholder(i), '*')
  {
    var d := Decimal(i);
    var p := Placeholder(i);
    forall k | 0 <= k < |p| ensures p[k] != '*' {
      if k < |Prefix| {
        assert p[k] == Prefix[k];
      } else if k < |Prefix| + |d| {
        assert p[k] == d[k - |Prefix|];
      } else {
        assert p[k] == '_';
      }
    }
  }

  /** Text without `_` holds no reference and is copied by the restore pass. */
  lemma {:induction false} RestoreWithoutUnderscore(w: string, rest: string, blocks: seq<string>)
    requires Lacks(w, '_')
    ensures Restore(w + rest, blocks) == w + Restore(rest, blocks)
    decreases |w|
  {
    if w != [] {
      var s := w + rest;
      var tail := w[1..] + rest;
      assert s == [w[0]] + tail;
      assert s[0] == w[0] && w[0] != Prefix[0];
      assert !At(s, 0, Prefix) by {
        if |Prefix| <= |s| {
          assert s[..|Prefix|][0] == s[0];
        }
      }
      RestoreChar(w[0], tail, blocks);
      RestoreWithoutUnderscore(w[1..], rest, blocks);
      assert Restore(s, blocks) == [w[0]] + (w[1..] + Restore(rest, blocks));
      Assoc([w[0]], w[1..], Restore(rest, blocks));
      HeadTail(w);
    } else {
      assert w + rest == rest;
    }
  }

  /** The pieces of plain text: one character each. */
  function Plain(t: string): (ps: seq<Piece>)
    ensures Shielded(ps) == t && Originals(ps) == []
  {
    if t == [] then []
    else
      var ps := [Char(t[0])] + Plain(t[1..]);
      assert ps[0] == Char(t[0]) && ps[1..] == Plain(t[1..]);
      HeadTail(t);
      ps
  }

  /** Characters that cannot start a block are scanned one at a time,
      whatever follows them. */
  lemma {:induction false} ShieldPlainThen(t: string, u: string, next: nat)
    requires Lacks(t, '`') && Lacks(t, '$') && Lacks(t, '\\')
    ensures ShieldPieces(t + u, next) == Plain(t) + ShieldPieces(u, next)
    decreases |t|
  {
    if t == [] {
      assert t + u == u;
    } else {
      var s := t + u;
      assert s[0] == t[0];
      assert ProtectAt(s).None?;
      assert s[1..] == t[1..] + u;
      ShieldPlainThen(t[1..], u, next);
      Assoc([Char(t[0])], Plain(t[1..]), ShieldPieces(u, next));
    }
  }

  /** Why the round trip needs text free of the placeholder prefix, and not
      only free of whole placeholders: in `__CJK_PROT_5` followed by an
      inline code span, the prefix and digit before the span's placeholder
      read as a reference to block 5, which does not exist, and the restore
      pass writes `undefined` there. */
  lemma PrefixCollision(s: string)
    requires s == "__CJK_PROT_5`x`"
    ensures var ps := ShieldPieces(s, 0);
            At(Restore(Shielded(ps), Originals(ps)), 0, "undefined")
  {
    var t, code := s[..12], s[12..];
    assert t == "__CJK_PROT_5" && code == "`x`";
    assert s == t + code;
    CollisionPieces(t, code);
    PlaceholderZero();
    CollisionReference(t + Placeholder(0), [code]);
  }

  /** Plain text followed by an inline code span: the text, then one placeholder. */
  lemma CollisionPieces(t: string, code: string)
    requires Lacks(t, '`') && Lacks(t, '$') && Lacks(t, '\\')
    requires code == "`x`"
    ensures Shielded(ShieldPieces(t + code, 0)) == t + Placeholder(0)
    ensures Originals(ShieldPieces(t + code, 0)) == [code]
  {
    ShieldPlainThen(t, code, 0);
    CodeSpanPieces(code);
    ShieldedAppend(Plain(t), [Prot(0, code)]);
    OriginalsAppend(Plain(t), [Prot(0, code)]);
  }

  /** An inline code span alone is one protected block. */
  lemma CodeSpanPieces(code: string)
    requires code == "`x`"
    ensures ShieldPieces(code, 0) == [Prot(0, code)]
  {
    assert code[1] != '`';
    assert !At(code, 0, "```");
    assert code[2..3] == "`" && code[1..2] != "`";
    assert FindFrom(code, "`", 2) == Some(2);
    assert FindFrom(code, "`", 1) == Some(2);
    assert ProtectAt(code) == Some(3);
    assert code[..3] == code && code[3..] == [];
  }

  lemma PlaceholderZero()
    ensures Placeholder(0) == "__CJK_PROT_0__"
  {
  }

  /** The reference the restore pass reads at the start of the shielded text. */
  lemma CollisionReference(w: string, blocks: seq<string>)
    requires w == "__CJK_PROT_5" + "__CJK_PROT_0__" && |blocks| == 1
    ensures At(Restore(w, blocks), 0, "undefined")
  {
    assert At(w, 0, Prefix) by { assert w[..|Prefix|] == Prefix; }
    assert Run(w, |Prefix|, Digit) == 12 by { assert IsDigit(w[11]) && !IsDigit(w[12]); }
    assert At(w, 12, "__") by { assert w[12..14] == "__"; }
    assert RefAt(w) == Some(14);
    RestoreReference(w, 14, blocks);
    assert w[|Prefix|..12] == "5";
    assert ParseDecimal("5") == 5 by { assert "5"[..0] == []; }
    assert Lookup("5", blocks) == "undefined";
    AtAppend("undefined", Restore(w[14..], blocks), 0, "undefined");
  }
}
