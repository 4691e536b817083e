/**
 * The editing loops of the four block tools: each one calls FindAndConsume
 * until it fails, appends the gap before every match and the (possibly
 * edited) block, and finally the text after the last match.
 *
 * Reading and writing the file are left to the caller: `read` is what
 * read_file_content produced (None when validation, reading, detection or
 * conversion failed) and `writeOk` is what write_file_content would return.
 */
module ToolCore {
  import opened Wrappers
  import opened Fence
  import opened BlockEdit

  // ---------------------------------------------------------------------------
  // delcl_'s body rewrite

  /** The first newline of `s` is the one at `e`, or `s` has none and `e` is its end. */
  lemma NewlineAt(s: string, e: nat)
    requires e <= |s|
    requires e == |s| || s[e] == '\n'
    requires forall k :: 0 <= k < e ==> s[k] != '\n'
    ensures NextNewline(s, 0) == e
  {
    FirstNewline(s, 0);
  }

  /** One getline call takes the first line off the unread text and moves past its newline. */
  lemma GetLineStep(code: string, lines: seq<string>, rest: string, e: nat)
    requires rest != [] && e == NextNewline(rest, 0)
    requires lines + GetLines(rest) == GetLines(code)
    ensures (lines + [rest[..e]]) + GetLines(if e < |rest| then rest[e + 1..] else []) == GetLines(code)
  {
    if e < |rest| {
      GetLinesStep(rest, e);
    } else {
      assert rest[..e] == rest;
    }
  }

  /** The end of the first line of the unread text: its first newline, or its end. */
  method LineEnd(rest: string) returns (e: nat)
    ensures e <= |rest|
    ensures e == |rest| || rest[e] == '\n'
    ensures forall k :: 0 <= k < e ==> rest[k] != '\n'
  {
    e := 0;
    while e < |rest| && rest[e] != '\n'
      invariant e <= |rest|
      invariant forall k :: 0 <= k < e ==> rest[k] != '\n'
    {
      e := e + 1;
    }
  }

  /** The getline loop of delcl_, with the extra "" for a body that ends in a newline after a non-empty line. */
  method SplitBodyLines(code: string) returns (lines: seq<string>)
    ensures lines == BodyLines(code)
  {
    lines := [];
    var rest := code;
    while rest != []
      invariant lines + GetLines(rest) == GetLines(code)
      decreases |rest|
    {
      var e := LineEnd(rest);
      NewlineAt(rest, e);
      GetLineStep(code, lines, rest, e);
      lines := lines + [rest[..e]];
      rest := if e < |rest| then rest[e + 1..] else [];
    }
    assert lines + [] == lines;
    if EndsWithNewline(code) && (|lines| == 0 || lines[|lines| - 1] != "") {
      lines := lines + [""];
    }
  }

  lemma JoinLinesSnoc(ls: seq<string>, x: string)
    ensures JoinLines(ls + [x]) == if ls == [] then x else JoinLines(ls) + "\n" + x
    decreases |ls|
  {
    if |ls| > 1 {
      assert (ls + [x])[1..] == ls[1..] + [x];
      JoinLinesSnoc(ls[1..], x);
    } else if |ls| == 1 {
      assert (ls + [x])[1..] == [x];
    }
  }

  /** The join loop of delcl_: lines from `line` on, separated by newlines. */
  method JoinFrom(lines: seq<string>, line: nat) returns (processed: string)
    requires line <= |lines|
    ensures processed == JoinLines(lines[line..])
  {
    processed := "";
    var i := line;
    while i < |lines|
      invariant line <= i <= |lines|
      invariant processed == JoinLines(lines[line..i])
    {
      if i > line {
        processed := processed + "\n";
      }
      JoinLinesSnoc(lines[line..i], lines[i]);
      assert lines[line..i + 1] == lines[line..i] + [lines[i]];
      processed := processed + lines[i];
      i := i + 1;
    }
    assert lines[line..i] == lines[line..];
  }

  /** The body delcl_ writes for one block. */
  method DeleteLeadingLines(code: string, line: nat) returns (processed: string)
    ensures processed == DeletedBody(code, line)
  {
    var lines := SplitBodyLines(code);
    processed := "";
    if line < |lines| {
      processed := JoinFrom(lines, line);
      if EndsWithNewline(code) && processed != "" {
        processed := processed + "\n";
      }
    }
    JoinedBodyIsDeletedBody(code, line);
  }

  // ---------------------------------------------------------------------------
  // The editing loop

  /** The block one of the four policies appends for a match, and whether it sets has_modification. */
  method EditBlock(op: Op, b: Block) returns (block: Block, changed: bool)
    ensures block == Edit(op, b)
    ensures changed == Changes(op, b)
  {
    match op {
      case AddLanguage(language) =>
        changed := b.lang == [];
        block := if changed then b.(lang := language) else b;
      case UpdateLanguage(language) =>
        block := b.(lang := language);
        changed := true;
      case RemoveLanguage =>
        changed := b.lang != [];
        block := if changed then Block(b.leading, "", "", b.body, b.trailing) else b;
      case DeleteLines(n) =>
        var processed := DeleteLeadingLines(b.body, n);
        changed := processed != b.body;
        block := b.(body := processed);
    }
  }

  lemma LoopInit(content: string)
    ensures content[0..] == content
  {
  }

  /** Once FindAndConsume fails, the rest of the text is copied unchanged. */
  lemma LoopExit(content: string, op: Op, input: string, result: string)
    requires result + Rewrite(input, op) == Rewrite(content, op)
    requires FindAndConsume(input).None?
    ensures result + input == Rewrite(content, op)
    ensures !AnyChange(input, op)
  {
  }

  /** The match found in `input` lies inside what is left of `content`. */
  lemma MatchFits(content: string, input: string, lastEnd: nat, m: Consumed)
    requires lastEnd <= |content| && input == content[lastEnd..] && FindAndConsume(input) == Some(m)
    ensures |m.remaining| + Size(m.block) <= |content| - lastEnd
  {
  }

  /** The gap before the match found in `input`, read from `content` at the positions the loop computes. */
  lemma GapInContent(content: string, input: string, lastEnd: nat, m: Consumed)
    requires lastEnd <= |content| && input == content[lastEnd..] && FindAndConsume(input) == Some(m)
    requires |m.remaining| + Size(m.block) <= |content| - lastEnd
    ensures content[lastEnd..|content| - |m.remaining| - Size(m.block)] == input[..MatchStart(input, m)]
  {
    var k := MatchStart(input, m);
    assert input[..k] == content[lastEnd..lastEnd + k];
  }

  /** What FindAndConsume leaves of `input` is the end of `content`. */
  lemma RestInContent(content: string, input: string, lastEnd: nat, m: Consumed, lastEnd': nat)
    requires lastEnd <= |content| && input == content[lastEnd..] && FindAndConsume(input) == Some(m)
    requires lastEnd' == |content| - |m.remaining|
    ensures lastEnd' <= |content| && m.remaining == content[lastEnd'..]
  {
    ConsumedSuffix(input);
    assert input[|input| - |m.remaining|..] == content[|content| - |m.remaining|..];
  }

  lemma AppendAssoc(a: string, b: string, c: string, d: string)
    ensures a + (b + c + d) == (a + b + c) + d
  {
  }

  /** The invariant carries over once the gap and the block are appended and the match is consumed. */
  lemma LoopStep(content: string, op: Op, input: string, result: string, modified: bool, m: Consumed,
                 gap: string, result': string, modified': bool)
    requires result + Rewrite(input, op) == Rewrite(content, op)
    requires AnyChange(content, op) == (modified || AnyChange(input, op))
    requires FindAndConsume(input) == Some(m) && gap == input[..MatchStart(input, m)]
    requires result' == result + gap + Render(Edit(op, m.block))
    requires modified' == (modified || Changes(op, m.block))
    ensures result' + Rewrite(m.remaining, op) == Rewrite(content, op)
    ensures AnyChange(content, op) == (modified' || AnyChange(m.remaining, op))
  {
    RewriteUnfold(input, op, m);
    AppendAssoc(result, gap, Render(Edit(op, m.block)), Rewrite(m.remaining, op));
  }

  /** What is left to rewrite shrinks to what follows the match once the gap and the block are appended. */
  lemma LoopAdvance(content: string, op: Op, input: string, lastEnd: nat, result: string, modified: bool, m: Consumed,
                    result': string, modified': bool)
    requires lastEnd <= |content| && input == content[lastEnd..] && FindAndConsume(input) == Some(m)
    requires |m.remaining| + Size(m.block) <= |content| - lastEnd
    requires result + Rewrite(input, op) == Rewrite(content, op)
    requires AnyChange(content, op) == (modified || AnyChange(input, op))
    requires result' == result + content[lastEnd..|content| - |m.remaining| - Size(m.block)] + Render(Edit(op, m.block))
    requires modified' == (modified || Changes(op, m.block))
    ensures result' + Rewrite(m.remaining, op) == Rewrite(content, op)
    ensures AnyChange(content, op) == (modified' || AnyChange(m.remaining, op))
  {
    GapInContent(content, input, lastEnd, m);
    LoopStep(content, op, input, result, modified, m, content[lastEnd..|content| - |m.remaining| - Size(m.block)],
             result', modified');
  }

  /** One turn of the editing loop: the gap before the match, then the block the policy keeps or edits. */
  method AppendMatch(content: string, op: Op, lastEnd: nat, result: string, modified: bool, m: Consumed)
      returns (result': string, modified': bool, lastEnd': nat)
    requires |m.remaining| + Size(m.block) <= |content| - lastEnd
    ensures result' == result + content[lastEnd..|content| - |m.remaining| - Size(m.block)] + Render(Edit(op, m.block))
    ensures modified' == (modified || Changes(op, m.block))
    ensures lastEnd' == |content| - |m.remaining|
  {
    var block, changed := EditBlock(op, m.block);
    var matchStart := |content| - |m.remaining| - Size(m.block);
    result' := result + content[lastEnd..matchStart] + Render(block);
    modified' := modified || changed;
    lastEnd' := |content| - |m.remaining|;
  }

  /**
   * The FindAndConsume loop shared by addl_, updl_, rmvl_ and delcl_, with the
   * block each of them appends. It returns the new text and has_modification.
   */
  method RewriteBlocks(content: string, op: Op) returns (result: string, modified: bool)
    ensures result == Rewrite(content, op)
    ensures modified == AnyChange(content, op)
  {
    result := "";
    modified := false;
    var input := content;
    var lastEnd: nat := 0;
    LoopInit(content);
    while FindAndConsume(input).Some?
      invariant lastEnd <= |content| && input == content[lastEnd..]
      invariant result + Rewrite(input, op) == Rewrite(content, op)
      invariant AnyChange(content, op) == (modified || AnyChange(input, op))
      decreases |input|
    {
      var m := FindAndConsume(input).value;
      MatchFits(content, input, lastEnd, m);
      var result', modified', lastEnd' := AppendMatch(content, op, lastEnd, result, modified, m);
      LoopAdvance(content, op, input, lastEnd, result, modified, m, result', modified');
      RestInContent(content, input, lastEnd, m, lastEnd');
      result, modified, lastEnd, input := result', modified', lastEnd', m.remaining;
    }
    LoopExit(content, op, input, result);
    result := result + content[lastEnd..];
  }

  // ---------------------------------------------------------------------------
  // The four tools

  /** What a tool returns, and the text it hands to write_file_content, if any. */
  datatype Outcome = Outcome(ok: bool, write: Option<string>)

  /** The common ending: no change means false and no write; otherwise the rewrite is written. */
  function Finish(content: string, op: Op, writeOk: bool): (r: Outcome)
    ensures r.write.Some? <==> AnyChange(content, op)
    ensures r.ok ==> r.write.Some? && writeOk
  {
    if AnyChange(content, op) then Outcome(writeOk, Some(Rewrite(content, op))) else Outcome(false, None)
  }

  const Refused: Outcome := Outcome(false, None)

  /** addl_: tag every untagged block. */
  method Addl(read: Option<string>, language: string, writeOk: bool) returns (r: Outcome)
    ensures language == [] ==> r == Refused
    ensures language != [] && read.None? ==> r == Refused
    ensures language != [] && read.Some? ==> r == Finish(read.value, AddLanguage(language), writeOk)
  {
    if language == [] {
      return Refused;
    }
    if read.None? {
      return Refused;
    }
    var result, modified := RewriteBlocks(read.value, AddLanguage(language));
    if !modified {
      return Refused;
    }
    return Outcome(writeOk, Some(result));
  }

  /** updl_: give every block the language. */
  method Updl(read: Option<string>, language: string, writeOk: bool) returns (r: Outcome)
    ensures language == [] ==> r == Refused
    ensures language != [] && read.None? ==> r == Refused
    ensures language != [] && read.Some? ==> r == Finish(read.value, UpdateLanguage(language), writeOk)
  {
    if language == [] {
      return Refused;
    }
    if read.None? {
      return Refused;
    }
    var result, modified := RewriteBlocks(read.value, UpdateLanguage(language));
    if !modified {
      return Refused;
    }
    return Outcome(writeOk, Some(result));
  }

  /** rmvl_: strip the tag and the rest of the opening line from every tagged block. */
  method Rmvl(read: Option<string>, writeOk: bool) returns (r: Outcome)
    ensures read.None? ==> r == Refused
    ensures read.Some? ==> r == Finish(read.value, RemoveLanguage, writeOk)
  {
    if read.None? {
      return Refused;
    }
    var result, modified := RewriteBlocks(read.value, RemoveLanguage);
    if !modified {
      return Refused;
    }
    return Outcome(writeOk, Some(result));
  }

  /** delcl_: delete the first `line` lines of every block body. */
  method Delcl(read: Option<string>, line: nat, writeOk: bool) returns (r: Outcome)
    ensures line == 0 ==> r == Refused
    ensures line != 0 && read.None? ==> r == Refused
    ensures line != 0 && read.Some? ==> r == Finish(read.value, DeleteLines(line), writeOk)
  {
    if line == 0 {
      return Refused;
    }
    if read.None? {
      return Refused;
    }
    var result, modified := RewriteBlocks(read.value, DeleteLines(line));
    if !modified {
      return Refused;
    }
    return Outcome(writeOk, Some(result));
  }

  // ---------------------------------------------------------------------------
  // Running a tool again on what it wrote

  /** addl_ run on its own output reports no change and writes nothing. */
  lemma AddlRerunWritesNothing(s: string, language: string, writeOk: bool)
    requires ValidLanguage(language)
    ensures Finish(Rewrite(s, AddLanguage(language)), AddLanguage(language), writeOk) == Refused
  {
    AddThenNothingToAdd(s, language);
  }

  /** rmvl_ run on its own output reports no change and writes nothing. */
  lemma RmvlRerunWritesNothing(s: string, writeOk: bool)
    ensures Finish(Rewrite(s, RemoveLanguage), RemoveLanguage, writeOk) == Refused
  {
    RemoveThenNothingToRemove(s);
  }

  /** updl_ run on its own output writes the same text again. */
  lemma UpdlRerunWritesSame(s: string, language: string, writeOk: bool)
    requires ValidLanguage(language) && !NoBlock(s)
    ensures Finish(Rewrite(s, UpdateLanguage(language)), UpdateLanguage(language), writeOk)
      == Finish(s, UpdateLanguage(language), writeOk)
  {
    var op := UpdateLanguage(language);
    UpdateIdempotent(s, language);
    UpdateChangesIffBlock(s, language);
    RewriteRescans(s, op);
    FindAndConsumeNone(s);
    var t := Rewrite(s, op);
    assert Blocks(t) == EditAll(op, Blocks(s));
    assert FindAndConsume(t).Some?;
  }

  /** A document without a complete fenced block is never written, whatever the tool. */
  lemma NoBlockNoWrite(s: string, op: Op, writeOk: bool)
    requires NoBlock(s)
    ensures Finish(s, op, writeOk) == Refused
  {
    FindAndConsumeNone(s);
  }
}
