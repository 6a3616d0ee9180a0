/**
  The pre-render pipeline of the preview (script.js:113-133), put together:
  auto-wrap bare LaTeX environments, shield code and math behind numbered
  placeholders, run the strong pass and then the italic pass, and restore
  the placeholders. What comes out is handed to the Markdown renderer,
  which is not part of this model.

  The main property: when the input does not already contain the
  placeholder prefix, every protected block reaches the output byte for
  byte, and outside the blocks every character is kept except stars, which
  the emphasis passes may turn into tags.
 */
module Preview {

  import opened Wrappers
  import opened Strings
  import opened Shield
  import AutoWrap
  import Emphasis

  /** The pipeline of `updatePreview`, as one function of the editor text. */
  function Preprocessed(s: string): string {
    var ps := ShieldPieces(AutoWrap.AutoWrap(s), 0);
    Restore(Emphasis.Italic(Emphasis.Strong(Shielded(ps)), true), Originals(ps))
  }

  /** The pipeline as the handler runs it, one pass after another. */
  method Preprocess(s: string) returns (html: string)
    ensures html == Preprocessed(s)
    ensures Absent(s, Prefix) ==> Emphasised(ShieldPieces(AutoWrap.AutoWrap(s), 0), html)
    ensures Absent(s, Prefix) && Lacks(s, '*') ==> html == AutoWrap.AutoWrap(s)
  {
    var wrapped := AutoWrap.AutoWrap(s);
    var shielded, blocks := Shield.Shield(wrapped);
    var strong := Emphasis.Strong(shielded);
    var italic := Emphasis.Italic(strong, true);
    html := Restore(italic, blocks);
    if Absent(s, Prefix) {
      ProtectedVerbatim(s);
      if Lacks(s, '*') {
        PreprocessWithoutStars(s);
      }
    }
  }

  // ------------------------------------------------------- the relation

  /** The characters of the leading plain pieces, at most two: what one
      emphasis step can read. */
  function Head(ps: seq<Piece>): (h: string)
    requires ps != [] && ps[0].Char?
    ensures 1 <= |h| <= |ps| && h[0] == ps[0].c
    ensures |h| == 2 <==> |ps| >= 2 && ps[1].Char?
  {
    if |ps| >= 2 && ps[1].Char? then [ps[0].c, ps[1].c] else [ps[0].c]
  }

  /** `out` is the text the pieces were cut from, with every protected block
      copied as it was, every other character kept in order, and some stars
      outside the blocks replaced: a single star by `<em>` or `</em>`, a pair
      by `<strong>` or `</strong>`. */
  predicate Emphasised(ps: seq<Piece>, out: string)
    decreases |ps|
  {
    if ps == [] then out == []
    else
      match ps[0]
      case Prot(_, o) => At(out, 0, o) && Emphasised(ps[1..], out[|o|..])
      case Char(_) =>
        match Emphasis.Step(Head(ps), out)
        case None => false
        case Some((n, n')) => Emphasised(ps[n..], out[n'..])
  }

  // ------------------------------------------------------- the theorems

  /** Protected blocks reach the output verbatim; see `Emphasised`. */
  lemma ProtectedVerbatim(s: string)
    requires Absent(s, Prefix)
    ensures Emphasised(ShieldPieces(AutoWrap.AutoWrap(s), 0), Preprocessed(s))
  {
    AutoWrap.AutoWrapKeepsAbsent(s, Prefix);
    ShieldedPassesEmphasise(AutoWrap.AutoWrap(s));
  }

  /** The shield, the emphasis passes and the restore, on text free of the
      placeholder prefix. */
  lemma ShieldedPassesEmphasise(w: string)
    requires Absent(w, Prefix)
    ensures var ps := ShieldPieces(w, 0);
            Emphasised(ps, Restore(Emphasis.Italic(Emphasis.Strong(Shielded(ps)), true), Originals(ps)))
  {
    var ps := ShieldPieces(w, 0);
    ShieldPiecesCover(w, 0);
    var v := Shielded(ps);
    Emphasis.PassesRetag(v);
    var blocks := Originals(ps);
    assert blocks[0..0 + |blocks|] == blocks;
    RestoreRetagged(ps, Emphasis.Italic(Emphasis.Strong(v), true), blocks, 0);
  }

  /** Without stars, the pipeline gives back the auto-wrapped text. */
  lemma PreprocessWithoutStars(s: string)
    requires Absent(s, Prefix) && Lacks(s, '*')
    ensures Preprocessed(s) == AutoWrap.AutoWrap(s)
  {
    var w := AutoWrap.AutoWrap(s);
    assert Absent(w, Prefix) && Lacks(w, '*') by {
      AutoWrap.AutoWrapKeepsAbsent(s, Prefix);
      LacksIsAbsent(s, '*');
      AutoWrap.AutoWrapKeepsAbsent(s, "*");
      LacksIsAbsent(w, '*');
    }
    var ps := ShieldPieces(w, 0);
    var v := Shielded(ps);
    assert Emphasis.Italic(Emphasis.Strong(v), true) == v by {
      ShieldPiecesCover(w, 0);
      ShieldedLacksStar(ps);
      Emphasis.StrongWithoutStars(v);
      Emphasis.ItalicWithoutStars(v, true);
    }
    ShieldThenRestore(w);
  }

  // ------------------------------------------------------- the proof

  /** Restoring any retagging of the shielded text gives an emphasised copy
      of the pieces. */
  lemma {:induction false} RestoreRetagged(ps: seq<Piece>, t: string, blocks: seq<string>, next: nat)
    requires Emphasis.Retagged(Shielded(ps), t)
    requires Absent(Unshielded(ps), Prefix) && NumberedFrom(ps, next)
    requires next + |Originals(ps)| <= |blocks|
    requires blocks[next..next + |Originals(ps)|] == Originals(ps)
    ensures Emphasised(ps, Restore(t, blocks))
    decreases |ps|, 1
  {
    if ps != [] {
      if ps[0].Prot? {
        RestoreRetaggedProt(ps, t, blocks, next);
      } else {
        RestoreRetaggedChar(ps, t, blocks, next);
      }
    }
  }

  /** The step of RestoreRetagged for a leading protected span. */
  lemma {:induction false} RestoreRetaggedProt(ps: seq<Piece>, t: string, blocks: seq<string>, next: nat)
    requires ps != [] && ps[0].Prot?
    requires Emphasis.Retagged(Shielded(ps), t)
    requires Absent(Unshielded(ps), Prefix) && NumberedFrom(ps, next)
    requires next + |Originals(ps)| <= |blocks|
    requires blocks[next..next + |Originals(ps)|] == Originals(ps)
    ensures Emphasised(ps, Restore(t, blocks))
    decreases |ps|, 0
  {
    CleanWhenAbsent(ps);
    RestoreTail(ps, blocks, next);
    var i, o := ps[0].index, ps[0].original;
    var t' := PlaceholderCopied(ps, t);
    AbsentSplit(o, Unshielded(ps[1..]));
    RestoreRetagged(ps[1..], t', blocks, next + 1);
    RestorePlaceholder(i, t', blocks);
    VerbatimCons(ps, o, Restore(t', blocks));
  }

  /** The step of RestoreRetagged for a leading run of ordinary characters. */
  lemma {:induction false} RestoreRetaggedChar(ps: seq<Piece>, t: string, blocks: seq<string>, next: nat)
    requires ps != [] && ps[0].Char?
    requires Emphasis.Retagged(Shielded(ps), t)
    requires Absent(Unshielded(ps), Prefix) && NumberedFrom(ps, next)
    requires next + |Originals(ps)| <= |blocks|
    requires blocks[next..next + |Originals(ps)|] == Originals(ps)
    ensures Emphasised(ps, Restore(t, blocks))
    decreases |ps|, 0
  {
    CleanWhenAbsent(ps);
    RestoreTail(ps, blocks, next);
    var n, n' := CharStep(ps, t);
    AbsentSplit(Head(ps)[..n], Unshielded(ps[n..]));
    RestoreRetagged(ps[n..], t[n'..], blocks, next);
    RestoreStep(ps, t, blocks, n, n');
    StepCons(ps, t, n, n', Restore(t[n'..], blocks));
  }

  /** A placeholder at the front of the shielded text is copied to the
      front of any retagging of it. */
  lemma PlaceholderCopied(ps: seq<Piece>, t: string) returns (t': string)
    requires ps != [] && ps[0].Prot? && Emphasis.Retagged(Shielded(ps), t)
    ensures t == Placeholder(ps[0].index) + t'
    ensures Emphasis.Retagged(Shielded(ps[1..]), t')
    ensures Unshielded(ps) == ps[0].original + Unshielded(ps[1..])
  {
    var p := Placeholder(ps[0].index);
    var s := Shielded(ps);
    assert s == p + Shielded(ps[1..]);
    TakeAppend(p, Shielded(ps[1..]));
    DropAppend(p, Shielded(ps[1..]));
    PlaceholderHasNoStar(ps[0].index);
    Emphasis.CopyWord(s, t, p);
    t' := t[|p|..];
    TakeDrop(t, |p|);
  }

  /** A protected block followed by an emphasised rest. */
  lemma VerbatimCons(ps: seq<Piece>, o: string, r: string)
    requires ps != [] && ps[0].Prot? && ps[0].original == o && Emphasised(ps[1..], r)
    ensures Emphasised(ps, o + r)
  {
    TakeAppend(o, r);
    DropAppend(o, r);
  }

  /** The first emphasis step on plain pieces: what it consumes of the
      pieces and writes to `t`, and what is left on both sides. */
  lemma CharStep(ps: seq<Piece>, t: string) returns (n: nat, n': nat)
    requires ps != [] && ps[0].Char? && Emphasis.Retagged(Shielded(ps), t)
    ensures Emphasis.Step(Head(ps), t) == Some((n, n'))
    ensures Emphasis.Step(Shielded(ps), t) == Some((n, n'))
    ensures 1 <= n <= |Head(ps)| && n' <= |t|
    ensures Emphasis.Retagged(Shielded(ps[n..]), t[n'..])
    ensures Unshielded(ps) == Head(ps)[..n] + Unshielded(ps[n..])
    ensures Originals(ps[n..]) == Originals(ps)
    ensures forall k :: NumberedFrom(ps[n..], k) == NumberedFrom(ps, k)
  {
    StepHead(ps, t);
    var s := Shielded(ps);
    n, n' := Emphasis.Step(s, t).value.0, Emphasis.Step(s, t).value.1;
    PlainDrop(ps, n);
    DropAppend(Head(ps)[..n], Shielded(ps[n..]));
  }

  /** The first step on the shielded text sees the same characters as on
      the leading plain pieces: a placeholder starts with `_`, never a star. */
  lemma StepHead(ps: seq<Piece>, t: string)
    requires ps != [] && ps[0].Char?
    ensures Emphasis.Step(Shielded(ps), t) == Emphasis.Step(Head(ps), t)
  {
    var s := Shielded(ps);
    var h := Head(ps);
    assert s == [ps[0].c] + Shielded(ps[1..]);
    assert s[0] == h[0];
    if |ps| >= 2 {
      assert Shielded(ps[1..]) == Hidden(ps[1]) + Shielded(ps[2..]);
      assert s[1] == Hidden(ps[1])[0];
      if ps[1].Prot? {
        assert Placeholder(ps[1].index)[0] == '_';
      }
      assert At(s, 0, "**") <==> s[0] == '*' && s[1] == '*' by {
        assert s[..2] == [s[0], s[1]];
      }
      assert At(h, 0, "**") <==> |h| == 2 && h[0] == '*' && h[1] == '*' by {
        if |h| == 2 { assert h[..2] == h; }
      }
    } else {
      assert s == h;
    }
  }

  /** Dropping one or two plain pieces. */
  lemma PlainDrop(ps: seq<Piece>, n: nat)
    requires ps != [] && ps[0].Char? && 1 <= n <= |Head(ps)|
    ensures Shielded(ps) == Head(ps)[..n] + Shielded(ps[n..])
    ensures Unshielded(ps) == Head(ps)[..n] + Unshielded(ps[n..])
    ensures Originals(ps[n..]) == Originals(ps)
    ensures forall k :: NumberedFrom(ps[n..], k) == NumberedFrom(ps, k)
  {
    var h := Head(ps);
    PlainCons(ps);
    if n == 1 {
      assert h[..1] == [ps[0].c];
    } else {
      var rest := ps[1..];
      PlainCons(rest);
      assert rest[1..] == ps[2..];
      assert h[..2] == [ps[0].c] + [rest[0].c];
      Assoc([ps[0].c], [rest[0].c], Shielded(ps[2..]));
      Assoc([ps[0].c], [rest[0].c], Unshielded(ps[2..]));
    }
  }

  /** One plain piece in front. */
  lemma PlainCons(ps: seq<Piece>)
    requires ps != [] && ps[0].Char?
    ensures Shielded(ps) == [ps[0].c] + Shielded(ps[1..])
    ensures Unshielded(ps) == [ps[0].c] + Unshielded(ps[1..])
    ensures Originals(ps[1..]) == Originals(ps)
    ensures forall k :: NumberedFrom(ps[1..], k) == NumberedFrom(ps, k)
  {
  }

  /** The restore pass copies what one step wrote and then continues. */
  lemma RestoreStep(ps: seq<Piece>, t: string, blocks: seq<string>, n: nat, n': nat)
    requires ps != [] && ps[0].Char? && Absent(Unshielded(ps), Prefix)
    requires 1 <= n <= |Head(ps)| && n' <= |t|
    requires Emphasis.Step(Shielded(ps), t) == Some((n, n'))
    requires Emphasis.Retagged(Shielded(ps[n..]), t[n'..])
    requires Unshielded(ps) == Head(ps)[..n] + Unshielded(ps[n..])
    ensures Restore(t, blocks) == t[..n'] + Restore(t[n'..], blocks)
  {
    var s := Shielded(ps);
    TakeDrop(t, n');
    StepHead(ps, t);
    if n' == 1 && t[0] == '_' {
      var c := ps[0].c;
      Emphasis.StepKeeps(Head(ps), t, n);
      assert Head(ps)[..1] == [c];
      NoRefRetagged([c], ps[1..], t[1..]);
      assert t == [c] + t[1..];
      RestoreChar(c, t[1..], blocks);
    } else {
      if n' == 1 {
        assert t[..1] == [t[0]];
      } else {
        TagIsMarkup(s, t, n, n');
      }
      RestoreWithoutUnderscore(t[..n'], t[n'..], blocks);
    }
  }

  /** An emphasised rest after the text of one step. */
  lemma StepCons(ps: seq<Piece>, t: string, n: nat, n': nat, r: string)
    requires ps != [] && ps[0].Char?
    requires Emphasis.Step(Head(ps), t) == Some((n, n'))
    requires Emphasised(ps[n..], r)
    ensures Emphasised(ps, t[..n'] + r)
  {
    var h := Head(ps);
    Emphasis.StepPrefix(h, t, n, n');
    Emphasis.StepAppend(h, t[..n'], [], r);
    assert h + [] == h;
    DropAppend(t[..n'], r);
  }

  /** A tag written by a step is markup: it starts with `<` and holds no `_`. */
  lemma TagIsMarkup(s: string, t: string, n: nat, n': nat)
    requires s != [] && Emphasis.Step(s, t) == Some((n, n')) && n' > 1
    ensures t[0] == '<' && Lacks(t[..n'], '_')
  {
    var w := t[..n'];
    assert t[0] == w[0];
    if n' == |Emphasis.EmOpen| {
      assert w == Emphasis.EmOpen;
    } else if n' == |Emphasis.EmClose| {
      assert w == Emphasis.EmClose;
    } else if n' == |Emphasis.StrongOpen| {
      assert w == Emphasis.StrongOpen;
    } else {
      assert w == Emphasis.StrongClose;
    }
  }

  /** Plain text in front of any retagging of shielded pieces holds no
      reference at its start, when the pieces' text is free of the prefix. */
  lemma {:induction false} NoRefRetagged(pre: string, ps: seq<Piece>, t: string)
    requires |pre| >= 1 && Absent(pre + Unshielded(ps), Prefix)
    requires Emphasis.Retagged(Shielded(ps), t)
    ensures RefAt(pre + t) == None
    decreases |ps|
  {
    AbsentSplit(pre, Unshielded(ps));
    if ps == [] {
      assert pre + t == pre;
      NoReferenceAcross(pre, []);
    } else {
      match ps[0]
      case Prot(i, o) =>
        var t' := PlaceholderCopied(ps, t);
        AtAppend(Placeholder(i), t', 0, Prefix);
        NoReferenceAcross(pre, t);
      case Char(c) =>
        var n, n' := CharStep(ps, t);
        if n' == 1 {
          KeptChar(pre, ps, t, n);
          NoRefRetagged(pre + [c], ps[1..], t[1..]);
        } else {
          TagIsMarkup(Shielded(ps), t, n, n');
          NoReferenceAcross(pre, t);
        }
    }
  }

  /** A plain character kept by the first step moves from the pieces to the
      text in front. */
  lemma KeptChar(pre: string, ps: seq<Piece>, t: string, n: nat)
    requires ps != [] && ps[0].Char? && Absent(pre + Unshielded(ps), Prefix)
    requires Emphasis.Step(Head(ps), t) == Some((n, 1))
    requires Emphasis.Step(Shielded(ps), t) == Some((n, 1))
    requires Emphasis.Retagged(Shielded(ps), t)
    ensures pre + t == (pre + [ps[0].c]) + t[1..]
    ensures Absent((pre + [ps[0].c]) + Unshielded(ps[1..]), Prefix)
    ensures Emphasis.Retagged(Shielded(ps[1..]), t[1..])
  {
    var c := ps[0].c;
    Emphasis.StepKeeps(Head(ps), t, n);
    PlainCons(ps);
    Assoc(pre, [c], Unshielded(ps[1..]));
    DropAppend([c], Shielded(ps[1..]));
    HeadTail(t);
    Assoc(pre, [c], t[1..]);
  }

  /** Shielding puts no star in: placeholders hold none. */
  lemma {:induction false} ShieldedLacksStar(ps: seq<Piece>)
    requires Lacks(Unshielded(ps), '*')
    ensures Lacks(Shielded(ps), '*')
    decreases |ps|
  {
    if ps != [] {
      var head := Shown(ps[0]);
      assert Unshielded(ps) == head + Unshielded(ps[1..]);
      assert Lacks(Unshielded(ps[1..]), '*') by {
        forall k | 0 <= k < |Unshielded(ps[1..])|
          ensures Unshielded(ps[1..])[k] != '*'
        {
          assert Unshielded(ps[1..])[k] == Unshielded(ps)[|head| + k];
        }
      }
      ShieldedLacksStar(ps[1..]);
      var hidden := Hidden(ps[0]);
      if ps[0].Prot? {
        PlaceholderHasNoStar(ps[0].index);
      } else {
        assert hidden == head && head[0] == Unshielded(ps)[0];
      }
      assert Shielded(ps) == hidden + Shielded(ps[1..]);
    }
  }
}
