/**
  List continuation in the editor (script.js:326-370). When Enter is pressed
  on a line that is a list item, the editor either starts the next item
  (repeating the bullet, or writing the next number) or, on an item with
  nothing after its marker, removes the marker and ends the list. On any
  other line the browser's own newline is left to happen.

  The current line is the text from the last line feed before the cursor up
  to the cursor. It is matched against `^(\s*[*+-]\s+)(.*)$` and, failing
  that, against `^(\s*)(\d+)(\.\s+)(.*)$`.
 */
module ListContinuation {

  import opened Wrappers
  import opened Strings

  // ------------------------------------------------------- list items

  /** A line matched by one of the two patterns, cut into its captures.
      A bullet marker is `indent + [glyph] + space`; a numbered item's
      separator is `"." + space`. */
  datatype Item =
    | Bullet(indent: string, glyph: char, space: string, content: string)
    | Numbered(indent: string, digits: string, space: string, content: string)

  /** The class `[*+-]`. */
  predicate IsGlyph(c: char) {
    c == '*' || c == '+' || c == '-'
  }

  /** Text that `.*` matches in full: no line terminator. */
  predicate OnOneLine(s: string) {
    forall k :: 0 <= k < |s| ==> !IsLineTerminator(s[k])
  }

  /** Everything before the content: the first capture of the bullet
      pattern, or the indent, number and separator of the numbered one. */
  function Marker(item: Item): string {
    match item
    case Bullet(indent, glyph, space, _) => indent + [glyph] + space
    case Numbered(indent, digits, space, _) => indent + digits + "." + space
  }

  /** The line an item was matched on. */
  function Text(item: Item): string {
    Marker(item) + item.content
  }

  /** The captures as a match of the pattern yields them: the greedy `\s*`,
      `\d+` and `\s+` leave no character of their class behind, so the content
      starts with a character that is not whitespace. */
  predicate WellFormed(item: Item) {
    && All(item.indent, Space)
    && (item.Bullet? ==> IsGlyph(item.glyph))
    && (item.Numbered? ==> item.digits != [] && IsDecimal(item.digits))
    && item.space != [] && All(item.space, Space)
    && OnOneLine(item.content)
    && (item.content != [] ==> !IsSpace(item.content[0]))
  }

  /** `^(\s*[*+-]\s+)(.*)$` on a line without line feeds. */
  function MatchBullet(line: string): (r: Option<Item>)
    ensures r.Some? ==> r.value.Bullet? && WellFormed(r.value) && Text(r.value) == line
  {
    var i := Run(line, 0, Space);
    if i == |line| || !IsGlyph(line[i]) then None
    else
      var j := Run(line, i + 1, Space);
      if j == i + 1 || !OnOneLine(line[j..]) then None
      else
        var item := Bullet(line[..i], line[i], line[i + 1..j], line[j..]);
        assert WellFormed(item) by { Captures(line, i, i + 1, j); }
        assert Text(item) == line by { Reassemble(line, i, j); }
        Some(item)
  }

  /** `^(\s*)(\d+)(\.\s+)(.*)$` on a line without line feeds. */
  function MatchNumbered(line: string): (r: Option<Item>)
    ensures r.Some? ==> r.value.Numbered? && WellFormed(r.value) && Text(r.value) == line
  {
    var i := Run(line, 0, Space);
    var d := Run(line, i, Digit);
    if d == i || d == |line| || line[d] != '.' then None
    else
      var j := Run(line, d + 1, Space);
      if j == d + 1 || !OnOneLine(line[j..]) then None
      else
        var item := Numbered(line[..i], line[i..d], line[d + 1..j], line[j..]);
        assert WellFormed(item) by { Captures(line, i, d + 1, j); RunSlice(line, i, Digit); }
        assert Text(item) == line by { Reassemble(line, d, j); TakeSplit(line, i, d); }
        Some(item)
  }

  /** The two patterns in the order the handler tries them. */
  function Classify(line: string): (r: Option<Item>)
    ensures r.Some? ==> WellFormed(r.value) && Text(r.value) == line
  {
    if MatchBullet(line).Some? then MatchBullet(line) else MatchNumbered(line)
  }

  /** What the greedy runs leave for the indent, the spacing and the content. */
  lemma Captures(line: string, i: nat, m: nat, j: nat)
    requires i == Run(line, 0, Space) && m <= |line| && j == Run(line, m, Space)
    ensures All(line[..i], Space) && All(line[m..j], Space)
    ensures line[j..] != [] ==> !IsSpace(line[j..][0])
  {
    RunSlice(line, 0, Space);
    assert line[0..i] == line[..i];
    RunSlice(line, m, Space);
    if j < |line| {
      assert line[j..][0] == line[j];
    }
  }

  /** Cutting a line at `i` and `j` and joining the pieces. */
  lemma Reassemble(line: string, i: nat, j: nat)
    requires i < j <= |line|
    ensures line[..i] + [line[i]] + line[i + 1..j] + line[j..] == line
  {
    assert line[..j] == line[..i] + [line[i]] + line[i + 1..j];
    TakeDrop(line, j);
  }

  // ------------------------------------------------------- the decision

  /** What the handler does on the current line. */
  datatype Action = Keep | EndList | Continue(insertion: string)

  /** The text inserted at the cursor to start the next item: a line feed,
      then the bullet marker again, or the indent, the next number and the
      separator. */
  function Insertion(item: Item): string
    requires WellFormed(item)
  {
    match item
    case Bullet(_, _, _, _) => "\n" + Marker(item)
    case Numbered(indent, digits, space, _) =>
      "\n" + (indent + Decimal(ParseDecimal(digits) + 1) + "." + space)
  }

  function Decide(line: string): Action {
    match Classify(line)
    case None => Keep
    case Some(item) => if Trim(item.content) == [] then EndList else Continue(Insertion(item))
  }

  /** Where the cursor's line starts: one past the last line feed before
      the cursor, or the start of the text. */
  function LineStart(text: string, start: nat): (ls: nat)
    requires start <= |text|
    ensures ls <= start && Lacks(text[ls..start], '\n')
    ensures ls == 0 || text[ls - 1] == '\n'
    decreases start
  {
    if start == 0 || text[start - 1] == '\n' then start
    else
      var ls := LineStart(text, start - 1);
      assert text[ls..start] == text[ls..start - 1] + [text[start - 1]];
      ls
  }

  /** The result of pressing Enter: left to the browser, or an edit of the
      text with the new cursor position. */
  datatype Outcome = Default | Edited(text: string, cursor: nat)

  function Enter(text: string, start: nat): Outcome
    requires start <= |text|
  {
    var ls := LineStart(text, start);
    Apply(text, ls, start, Decide(text[ls..start]))
  }

  /** Carrying out an action on the line `text[ls..start]`: removing it, or
      inserting at the cursor. */
  function Apply(text: string, ls: nat, start: nat, a: Action): Outcome
    requires ls <= start <= |text|
  {
    match a
    case Keep => Default
    case EndList => Edited(text[..ls] + text[start..], ls)
    case Continue(insertion) => Edited(text[..start] + insertion + text[start..], start + |insertion|)
  }

  // ------------------------------------------------------- the editor

  /** The editor's text area: its text and its selection. */
  class Editor {
    var value: string
    var selectionStart: nat
    var selectionEnd: nat

    /** The browser keeps the selection inside the text. */
    predicate Valid()
      reads this
    {
      selectionStart <= selectionEnd <= |value|
    }

    constructor (text: string, cursor: nat)
      requires cursor <= |text|
      ensures Valid() && value == text && selectionStart == cursor && selectionEnd == cursor
    {
      value := text;
      selectionStart := cursor;
      selectionEnd := cursor;
    }

    /** The `keydown` handler. It returns whether it handled the key (and
        so cancelled the browser's default action and refreshed the
        preview). */
    method KeyDown(key: string) returns (handled: bool)
      requires Valid()
      modifies this
      ensures Valid()
      ensures handled <==> key == "Enter" && Enter(old(value), old(selectionStart)).Edited?
      ensures handled ==> value == Enter(old(value), old(selectionStart)).text
                          && selectionStart == Enter(old(value), old(selectionStart)).cursor
                          && selectionEnd == selectionStart
      ensures !handled ==> value == old(value) && selectionStart == old(selectionStart)
                           && selectionEnd == old(selectionEnd)
    {
      handled := false;
      if key == "Enter" {
        var start := selectionStart;
        var text := value;
        var lineStart := LineStart(text, start);
        var currentLine := text[lineStart..start];
        var item := Classify(currentLine);
        if item.Some? {
          handled := true;
          if Trim(item.value.content) == [] {
            value := text[..lineStart] + text[start..];
            selectionStart, selectionEnd := lineStart, lineStart;
          } else {
            var insertion := Insertion(item.value);
            value := text[..start] + insertion + text[start..];
            selectionStart, selectionEnd := start + |insertion|, start + |insertion|;
          }
        }
      }
    }
  }

  // ------------------------------------------------------- properties

  /** The patterns match exactly the well-formed items: whatever the
      captures, the line they spell is classified as that item. */
  lemma ClassifyComplete(item: Item)
    requires WellFormed(item)
    ensures Classify(Text(item)) == Some(item)
  {
    match item
    case Bullet(_, _, _, _) => BulletComplete(item);
    case Numbered(_, _, _, _) =>
      NotBullet(item);
      NumberedComplete(item);
  }

  lemma BulletComplete(item: Item)
    requires item.Bullet? && WellFormed(item)
    ensures MatchBullet(Text(item)) == Some(item)
  {
    var line := Text(item);
    var indent, g, sp, c := item.indent, item.glyph, item.space, item.content;
    var a := |indent|;
    var j := a + 1 + |sp|;
    RunOver(line, [], indent, [g] + sp + c, Space);
    RunOver(line, indent + [g], sp, c, Space);
    assert line[..a] == indent && line[a] == g;
    assert line[a + 1..j] == sp && line[j..] == c;
    BulletAt(line, a, j);
  }

  /** The bullet pattern at runs already found. */
  lemma BulletAt(line: string, i: nat, j: nat)
    requires i == Run(line, 0, Space) < |line| && IsGlyph(line[i])
    requires i + 1 < j == Run(line, i + 1, Space) && OnOneLine(line[j..])
    ensures MatchBullet(line) == Some(Bullet(line[..i], line[i], line[i + 1..j], line[j..]))
  {
  }

  lemma NumberedComplete(item: Item)
    requires item.Numbered? && WellFormed(item)
    ensures MatchNumbered(Text(item)) == Some(item)
  {
    var indent, ds, sp, c := item.indent, item.digits, item.space, item.content;
    assert Text(item) == indent + ds + "." + sp + c;
    NumberedLine(Text(item), indent, ds, sp, c);
  }

  /** The numbered pattern on a line spelled from its captures. */
  lemma NumberedLine(line: string, indent: string, ds: string, sp: string, c: string)
    requires line == indent + ds + "." + sp + c
    requires All(indent, Space) && ds != [] && IsDecimal(ds) && sp != [] && All(sp, Space)
    requires OnOneLine(c) && (c != [] ==> !IsSpace(c[0]))
    ensures MatchNumbered(line) == Some(Numbered(indent, ds, sp, c))
  {
    var a := |indent|;
    var d := a + |ds|;
    var j := d + 1 + |sp|;
    assert a == Run(line, 0, Space) && d == Run(line, a, Digit) && j == Run(line, d + 1, Space) by {
      NumberedRuns(line, indent, ds, sp, c);
    }
    assert line[..a] == indent && line[a..d] == ds && line[d] == '.'
           && line[d + 1..j] == sp && line[j..] == c by {
      NumberedSlices(line, indent, ds, sp, c);
    }
    NumberedAt(line, a, d, j);
  }

  /** The greedy runs over a numbered line stop at the end of each capture. */
  lemma NumberedRuns(line: string, indent: string, ds: string, sp: string, c: string)
    requires line == indent + ds + "." + sp + c
    requires All(indent, Space) && ds != [] && IsDecimal(ds) && All(sp, Space)
    requires c != [] ==> !IsSpace(c[0])
    ensures Run(line, 0, Space) == |indent|
    ensures Run(line, |indent|, Digit) == |indent| + |ds|
    ensures Run(line, |indent| + |ds| + 1, Space) == |indent| + |ds| + 1 + |sp|
  {
    IndentRun(line, indent, ds, sp, c);
    DigitsRun(line, indent, ds, sp, c);
    RunOver(line, indent + ds + ".", sp, c, Space);
  }

  lemma IndentRun(line: string, indent: string, ds: string, sp: string, c: string)
    requires line == indent + ds + "." + sp + c
    requires All(indent, Space) && ds != [] && IsDecimal(ds)
    ensures Run(line, 0, Space) == |indent|
  {
    var rest := ds + "." + sp + c;
    assert line == [] + indent + rest by {
      Assoc(indent, ds, ".");
      Assoc(indent, ds + ".", sp);
      Assoc(indent, ds + "." + sp, c);
    }
    assert rest[0] == ds[0];
    RunOver(line, [], indent, rest, Space);
  }

  lemma DigitsRun(line: string, indent: string, ds: string, sp: string, c: string)
    requires line == indent + ds + "." + sp + c && IsDecimal(ds)
    ensures Run(line, |indent|, Digit) == |indent| + |ds|
  {
    assert line == indent + ds + ("." + sp + c) by {
      Assoc(indent + ds, ".", sp);
      Assoc(indent + ds, "." + sp, c);
    }
    RunOver(line, indent, ds, "." + sp + c, Digit);
  }

  /** The captures of a numbered line, read back by position. */
  lemma NumberedSlices(line: string, indent: string, ds: string, sp: string, c: string)
    requires line == indent + ds + "." + sp + c
    ensures var a := |indent|;
            var d := a + |ds|;
            var j := d + 1 + |sp|;
            && line[..a] == indent && line[a..d] == ds && line[d] == '.'
            && line[d + 1..j] == sp && line[j..] == c
  {
    var a := |indent|;
    var d := a + |ds|;
    var j := d + 1 + |sp|;
    assert line[..a] == indent;
    assert line[a..d] == ds;
    assert line[d + 1..j] == sp;
    assert line[j..] == c;
  }

  /** The numbered pattern at runs already found. */
  lemma NumberedAt(line: string, i: nat, d: nat, j: nat)
    requires i == Run(line, 0, Space) && i < d == Run(line, i, Digit) < |line| && line[d] == '.'
    requires d + 1 < j == Run(line, d + 1, Space) && OnOneLine(line[j..])
    ensures MatchNumbered(line) == Some(Numbered(line[..i], line[i..d], line[d + 1..j], line[j..]))
  {
  }

  /** A numbered line is not a bullet line: after the indent comes a digit. */
  lemma NotBullet(item: Item)
    requires item.Numbered? && WellFormed(item)
    ensures MatchBullet(Text(item)) == None
  {
    var line := Text(item);
    var indent, ds, sp, c := item.indent, item.digits, item.space, item.content;
    assert line == indent + ds + "." + sp + c;
    IndentRun(line, indent, ds, sp, c);
    assert line[|indent|] == ds[0];
  }

  /** The item ends the list exactly when nothing follows its marker; the
      handler does nothing exactly on lines that are not items. */
  lemma DecideCases(line: string)
    ensures Decide(line) == Keep <==> Classify(line) == None
    ensures Decide(line) == EndList <==> Classify(line).Some? && Classify(line).value.content == []
  {
    if Classify(line).Some? {
      var c := Classify(line).value.content;
      TrimEmptyIffBlank(c);
      if c != [] {
        assert !IsSpace(c[0]);
      }
    }
  }

  /** The item the handler starts: same indent, same bullet or the next
      number, same spacing, and nothing after the marker. */
  function NextItem(item: Item): Item
    requires WellFormed(item)
  {
    match item
    case Bullet(indent, glyph, space, _) => Bullet(indent, glyph, space, [])
    case Numbered(indent, digits, space, _) =>
      Numbered(indent, Decimal(ParseDecimal(digits) + 1), space, [])
  }

  /** The inserted text is a line feed followed by the next item, which the
      patterns read back as that item; its number is one more. */
  lemma InsertionStartsNextItem(item: Item)
    requires WellFormed(item) && Lacks(Text(item), '\n')
    ensures WellFormed(NextItem(item))
    ensures Insertion(item) == "\n" + Text(NextItem(item))
    ensures Classify(Text(NextItem(item))) == Some(NextItem(item))
    ensures item.Numbered? ==> ParseDecimal(NextItem(item).digits) == ParseDecimal(item.digits) + 1
    ensures Lacks(Text(NextItem(item)), '\n')
  {
    var next := NextItem(item);
    if item.Numbered? {
      ParseDecimalOfDecimal(ParseDecimal(item.digits) + 1);
    }
    assert WellFormed(next);
    ClassifyComplete(next);
    NextItemOnOneLine(item);
    InsertionIsNextLine(item);
  }

  lemma InsertionIsNextLine(item: Item)
    requires WellFormed(item)
    ensures Insertion(item) == "\n" + Text(NextItem(item))
  {
    assert Text(NextItem(item)) == Marker(NextItem(item)) + [];
  }

  /** The next item stays on one line. */
  lemma NextItemOnOneLine(item: Item)
    requires WellFormed(item) && Lacks(Text(item), '\n')
    ensures Lacks(Text(NextItem(item)), '\n')
  {
    var next := NextItem(item);
    match item
    case Bullet(indent, g, sp, c) =>
      LacksConcat(indent + [g] + sp, c, '\n');
      assert Text(next) == indent + [g] + sp + [];
    case Numbered(indent, ds, sp, c) =>
      var digits := next.digits;
      LacksConcat(indent + ds + "." + sp, c, '\n');
      LacksConcat(indent + ds + ".", sp, '\n');
      LacksConcat(indent + ds, ".", '\n');
      LacksConcat(indent, ds, '\n');
      assert Lacks(digits, '\n') by {
        forall k | 0 <= k < |digits| ensures digits[k] != '\n' {
          assert In(digits[k], Digit);
        }
      }
      LacksConcat(indent, digits, '\n');
      LacksConcat(indent + digits, ".", '\n');
      LacksConcat(indent + digits + ".", sp, '\n');
      assert Text(next) == indent + digits + "." + sp + [];
  }

  /** The handler acts on the current line only: with the cursor at the end
      of `line`, which starts the text or follows a line feed, the text
      before and after the line is kept as it is. */
  lemma EnterOnLine(pre: string, line: string, post: string)
    requires pre == [] || pre[|pre| - 1] == '\n'
    requires Lacks(line, '\n')
    ensures var text, start := pre + line + post, |pre| + |line|;
            && (Decide(line) == Keep ==> Enter(text, start) == Default)
            && (Decide(line) == EndList ==> Enter(text, start) == Edited(pre + post, |pre|))
            && (Decide(line).Continue? ==>
                  var ins := Decide(line).insertion;
                  Enter(text, start) == Edited(pre + line + ins + post, start + |ins|))
  {
    EnterAtLine(pre, line, post);
    ApplyOnLine(pre, line, post, Decide(line));
  }

  /** The decision for a cursor at the end of `line` is taken on `line`. */
  lemma EnterAtLine(pre: string, line: string, post: string)
    requires pre == [] || pre[|pre| - 1] == '\n'
    requires Lacks(line, '\n')
    ensures var text, start := pre + line + post, |pre| + |line|;
            Enter(text, start) == Apply(text, |pre|, start, Decide(line))
  {
    var text, start := pre + line + post, |pre| + |line|;
    LineStartOf(pre, line, post);
    assert text[|pre|..start] == line;
  }

  /** An action on the line between `pre` and `post`. */
  lemma ApplyOnLine(pre: string, line: string, post: string, a: Action)
    ensures var text, start := pre + line + post, |pre| + |line|;
            && text[|pre|..start] == line
            && (a == Keep ==> Apply(text, |pre|, start, a) == Default)
            && (a == EndList ==> Apply(text, |pre|, start, a) == Edited(pre + post, |pre|))
            && (a.Continue? ==>
                  Apply(text, |pre|, start, a) == Edited(pre + line + a.insertion + post, start + |a.insertion|))
  {
    var text, start := pre + line + post, |pre| + |line|;
    assert text[|pre|..start] == line;
    assert text[..|pre|] == pre;
    assert text[start..] == post;
    assert text[..start] == pre + line;
  }

  /** The line start found for a cursor at the end of `line`. */
  lemma {:induction false} LineStartOf(pre: string, line: string, post: string)
    requires pre == [] || pre[|pre| - 1] == '\n'
    requires Lacks(line, '\n')
    ensures LineStart(pre + line + post, |pre| + |line|) == |pre|
    decreases |line|
  {
    var text := pre + line + post;
    if line != [] {
      var init := line[..|line| - 1];
      assert text == pre + init + ([line[|line| - 1]] + post);
      assert text[|pre| + |line| - 1] == line[|line| - 1];
      LineStartOf(pre, init, [line[|line| - 1]] + post);
    }
  }

  /** Pressing Enter twice ends the list. The first press on an item with
      content leaves `pre + line + ins + post` with the cursor after the
      insertion `ins` (`EnterOnLine`); the item it started has nothing after
      its marker, so the second press removes it again, and what remains is
      the original text with a plain line feed at the cursor. */
  lemma EnterTwice(pre: string, line: string, post: string, text: string, start: nat)
    requires Lacks(line, '\n') && Decide(line).Continue?
    requires text == pre + line + Decide(line).insertion + post
    requires start == |pre| + |line| + |Decide(line).insertion|
    ensures Enter(text, start) == Edited(pre + line + "\n" + post, |pre| + |line| + 1)
  {
    var next := ContinueInsertsItem(line);
    Regroup(pre + line, Decide(line).insertion, next, post);
    EndListAt(pre + line + "\n", next, post, text, start, |pre| + |line| + 1);
  }

  /** The text after the first press, grouped around the inserted line. */
  lemma Regroup(before: string, ins: string, next: string, post: string)
    requires ins == "\n" + next
    ensures before + ins + post == (before + "\n") + next + post
    ensures |ins| == |next| + 1 && |before + "\n"| == |before| + 1
    ensures (before + "\n")[|before|] == '\n'
  {
    Assoc(before, "\n", next);
  }

  /** Enter on an empty item, for a text and cursor given in any form. */
  lemma EndListAt(pre: string, line: string, post: string, text: string, start: nat, cursor: nat)
    requires pre != [] && pre[|pre| - 1] == '\n'
    requires Lacks(line, '\n') && Decide(line) == EndList
    requires text == pre + line + post && start == |pre| + |line| && cursor == |pre|
    ensures Enter(text, start) == Edited(pre + post, cursor)
  {
    EnterOnLine(pre, line, post);
  }

  /** What a continuation inserts: a line feed and an empty item. */
  lemma ContinueInsertsItem(line: string) returns (next: string)
    requires Lacks(line, '\n') && Decide(line).Continue?
    ensures Decide(line).insertion == "\n" + next
    ensures Lacks(next, '\n') && Decide(next) == EndList
  {
    var item := Classify(line).value;
    InsertionStartsNextItem(item);
    next := Text(NextItem(item));
    DecideCases(next);
  }
}
