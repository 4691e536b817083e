/**
 * What the four editing tools do to a document, as functions: the edit each
 * policy applies to one block, the rewrite of a whole document, and the
 * lines of a block body as std::getline reads them.
 */
module BlockEdit {
  import opened Wrappers
  import opened Fence

  /** The four block-editing policies of the command-line tool. */
  datatype Op =
    | AddLanguage(language: string)
    | UpdateLanguage(language: string)
    | RemoveLanguage
    | DeleteLines(count: nat)

  // ---------------------------------------------------------------------------
  // Lines of a body

  predicate EndsWithNewline(s: string) { |s| > 0 && s[|s| - 1] == '\n' }

  /** The lines std::getline extracts from `s`: each newline ends a line, and a final newline starts none. */
  function GetLines(s: string): (r: seq<string>)
    ensures |r| == 0 <==> s == []
    decreases |s|
  {
    if s == [] then []
    else
      var e := NextNewline(s, 0);
      if e == |s| then [s] else [s[..e]] + GetLines(s[e + 1..])
  }

  /** Lines joined with a newline between neighbours. */
  function JoinLines(ls: seq<string>): string {
    if |ls| == 0 then ""
    else if |ls| == 1 then ls[0]
    else ls[0] + "\n" + JoinLines(ls[1..])
  }

  /** `s` without its first `n` lines: the text after its n-th newline, or "" when it has fewer. */
  function DropLines(s: string, n: nat): (r: string)
    ensures |r| <= |s|
    ensures r == [] || |r| == |s| || s[|s| - |r| - 1] == '\n'
    decreases n
  {
    if n == 0 then s
    else
      var e := NextNewline(s, 0);
      if e == |s| then "" else DropLines(s[e + 1..], n - 1)
  }

  /** What DropLines keeps is the end of `s`, from some position `j` on. */
  lemma {:induction false} DropLinesSuffix(s: string, n: nat) returns (j: nat)
    ensures j <= |s| && DropLines(s, n) == s[j..]
    decreases n
  {
    var e := NextNewline(s, 0);
    if n == 0 {
      j := 0;
      DropNone(s);
    } else if e < |s| {
      var k := DropLinesSuffix(s[e + 1..], n - 1);
      DropLinesSuffixStep(s, n, e, k);
      j := e + 1 + k;
    } else {
      j := |s|;
      DropAll(s, n);
    }
  }

  lemma DropNone(s: string)
    ensures DropLines(s, 0) == s[0..]
  {
    assert s[0..] == s;
  }

  lemma DropAll(s: string, n: nat)
    requires n > 0 && NextNewline(s, 0) == |s|
    ensures DropLines(s, n) == s[|s|..]
  {
    assert s[|s|..] == [];
  }

  lemma DropLinesSuffixStep(s: string, n: nat, e: nat, k: nat)
    requires n > 0 && e < |s| && e == NextNewline(s, 0) && k <= |s| - e - 1
    requires DropLines(s[e + 1..], n - 1) == s[e + 1..][k..]
    ensures DropLines(s, n) == s[e + 1 + k..]
  {
    DropLinesStep(s, n, e);
    DropOfDrop(s, e + 1, k);
  }

  lemma DropOfDrop(s: string, a: nat, b: nat)
    requires a + b <= |s|
    ensures s[a..][b..] == s[a + b..]
  {
  }

  /** The lines vector of delcl_: getline's lines, plus "" when the body ends with a newline after a non-empty line. */
  function BodyLines(body: string): seq<string> {
    var ls := GetLines(body);
    if EndsWithNewline(body) && (ls == [] || ls[|ls| - 1] != "") then ls + [""] else ls
  }

  /**
   * The body delcl_ writes back after deleting the first `n` lines: the text
   * after the n-th newline, with the final newline mended the way the join
   * loop mends it. A body that ended in a newline after a non-empty line
   * gets one more newline; one that ended in a blank line loses a lone
   * remaining newline.
   */
  function DeletedBody(body: string, n: nat): string {
    var rest := DropLines(body, n);
    if !EndsWithNewline(body) then rest
    else if !BlankLastLine(body) then (if rest == "" then "" else rest + "\n")
    else if rest == "\n" then "" else rest
  }

  /** The body as delcl_ builds it: the lines vector from the n-th line on, joined, and a newline put back. */
  function JoinedBody(body: string, n: nat): string {
    var ls := BodyLines(body);
    if n < |ls| then
      var joined := JoinLines(ls[n..]);
      if EndsWithNewline(body) && joined != "" then joined + "\n" else joined
    else ""
  }

  /** The last line of a body that ends with a newline is empty. */
  predicate BlankLastLine(s: string) {
    EndsWithNewline(s) && (|s| == 1 || s[|s| - 2] == '\n')
  }

  lemma {:induction false} JoinGetLines(s: string)
    ensures JoinLines(GetLines(s)) + (if EndsWithNewline(s) then "\n" else "") == s
    decreases |s|
  {
    if s != [] {
      var e := NextNewline(s, 0);
      FirstNewline(s, 0);
      if e < |s| && e + 1 < |s| {
        var rest := s[e + 1..];
        JoinGetLines(rest);
        JoinGetLinesStep(s, e);
      } else if e < |s| {
        SplitAtNewline(s, e);
      }
    }
  }

  lemma JoinGetLinesStep(s: string, e: nat)
    requires e + 1 < |s| && e == NextNewline(s, 0)
    requires JoinLines(GetLines(s[e + 1..])) + (if EndsWithNewline(s[e + 1..]) then "\n" else "") == s[e + 1..]
    ensures JoinLines(GetLines(s)) + (if EndsWithNewline(s) then "\n" else "") == s
  {
    var rest := s[e + 1..];
    var j := JoinLines(GetLines(rest));
    var t: string := if EndsWithNewline(rest) then "\n" else "";
    GetLinesStep(s, e);
    JoinCons(s[..e], GetLines(rest));
    NewlineOfSuffix(s, e);
    ConcatAssoc(s[..e] + "\n", j, t);
    SplitAtNewline(s, e);
  }

  lemma GetLinesStep(s: string, e: nat)
    requires e < |s| && e == NextNewline(s, 0)
    ensures GetLines(s) == [s[..e]] + GetLines(s[e + 1..])
  {
  }

  lemma NewlineOfSuffix(s: string, e: nat)
    requires e + 1 < |s|
    ensures EndsWithNewline(s) == EndsWithNewline(s[e + 1..])
  {
  }

  lemma ConcatAssoc(a: string, b: string, c: string)
    ensures a + b + c == a + (b + c)
  {
  }

  lemma SplitAtNewline(s: string, e: nat)
    requires e < |s| && s[e] == '\n'
    ensures s == s[..e] + "\n" + s[e + 1..]
  {
    assert s[e..e + 1] == "\n";
  }

  lemma JoinCons(a: string, ls: seq<string>)
    requires ls != []
    ensures JoinLines([a] + ls) == a + "\n" + JoinLines(ls)
  {
    assert ([a] + ls)[1..] == ls;
  }

  /** Joining the lines from the n-th on gives the text after the n-th newline. */
  lemma {:induction false} JoinDropLines(s: string, n: nat)
    requires n < |GetLines(s)|
    ensures JoinLines(GetLines(s)[n..]) + (if EndsWithNewline(s) then "\n" else "") == DropLines(s, n)
    decreases n
  {
    if n == 0 {
      JoinGetLines(s);
      assert GetLines(s)[0..] == GetLines(s);
    } else {
      var e := NextNewline(s, 0);
      var rest := s[e + 1..];
      assert GetLines(s)[n..] == GetLines(rest)[n - 1..];
      assert EndsWithNewline(s) == EndsWithNewline(rest);
      JoinDropLines(rest, n - 1);
    }
  }

  lemma {:induction false} DropPastLines(s: string, n: nat)
    requires n >= |GetLines(s)|
    ensures DropLines(s, n) == ""
    decreases n
  {
    if n > 0 && s != [] {
      var e := NextNewline(s, 0);
      if e < |s| {
        var rest := s[e + 1..];
        GetLinesStep(s, e);
        assert n - 1 >= |GetLines(rest)|;
        DropPastLines(rest, n - 1);
        DropLinesStep(s, n, e);
      }
    }
  }

  lemma DropLinesStep(s: string, n: nat, e: nat)
    requires n > 0 && e < |s| && e == NextNewline(s, 0)
    ensures DropLines(s, n) == DropLines(s[e + 1..], n - 1)
  {
  }

  /** getline's last line is empty exactly when the text ends with a blank line. */
  lemma {:induction false} LastLineEmpty(s: string)
    requires s != []
    ensures GetLines(s)[|GetLines(s)| - 1] == "" <==> BlankLastLine(s)
    decreases |s|
  {
    var e := NextNewline(s, 0);
    FirstNewline(s, 0);
    if e < |s| {
      var rest := s[e + 1..];
      if rest != [] {
        LastLineEmpty(rest);
        assert BlankLastLine(s) == BlankLastLine(rest) by {
          if |rest| == 1 {
            assert s[|s| - 2] == s[e] == '\n';
          } else {
            assert s[|s| - 2] == rest[|rest| - 2];
          }
        }
      }
    }
  }

  lemma JoinAppendEmpty(ls: seq<string>)
    requires ls != []
    ensures JoinLines(ls + [""]) == JoinLines(ls) + "\n"
    decreases |ls|
  {
    if |ls| > 1 {
      assert (ls + [""])[1..] == ls[1..] + [""];
      JoinAppendEmpty(ls[1..]);
    }
  }

  /** Splitting a body into lines and joining the lines from the n-th on writes DeletedBody. */
  lemma JoinedBodyIsDeletedBody(body: string, n: nat)
    ensures JoinedBody(body, n) == DeletedBody(body, n)
  {
    if !EndsWithNewline(body) {
      DeletedPlainBody(body, n);
    } else if !BlankLastLine(body) {
      DeletedNewlineBody(body, n);
    } else {
      DeletedBlankLastBody(body, n);
    }
  }

  lemma DeletedPlainBody(body: string, n: nat)
    requires !EndsWithNewline(body)
    ensures JoinedBody(body, n) == DropLines(body, n)
  {
    if n < |GetLines(body)| {
      JoinDropLines(body, n);
    } else {
      DropPastLines(body, n);
    }
  }

  lemma DeletedNewlineBody(body: string, n: nat)
    requires EndsWithNewline(body) && !BlankLastLine(body)
    ensures JoinedBody(body, n) == (if DropLines(body, n) == "" then "" else DropLines(body, n) + "\n")
  {
    var g := GetLines(body);
    BodyLinesNewline(body);
    if n < |g| {
      DeletedNewlineBodyLines(body, n);
    } else {
      DropPastLines(body, n);
      if n == |g| {
        DropSnoc(g, "", n);
      }
    }
  }

  lemma BodyLinesNewline(body: string)
    requires EndsWithNewline(body) && !BlankLastLine(body)
    ensures BodyLines(body) == GetLines(body) + [""]
  {
    LastLineEmpty(body);
  }

  lemma DeletedNewlineBodyLines(body: string, n: nat)
    requires EndsWithNewline(body) && n < |GetLines(body)|
    ensures JoinLines((GetLines(body) + [""])[n..]) == DropLines(body, n) != ""
  {
    var g := GetLines(body);
    JoinDropLines(body, n);
    DropSnoc(g, "", n);
    JoinAppendEmpty(g[n..]);
  }

  lemma DropSnoc<T>(g: seq<T>, x: T, n: nat)
    requires n <= |g|
    ensures (g + [x])[n..] == g[n..] + [x]
  {
  }

  lemma EmptyIffNewline(a: string, b: string)
    requires a + "\n" == b
    ensures a == "" <==> b == "\n"
  {
    assert |b| == |a| + 1;
  }

  lemma DeletedBlankLastBody(body: string, n: nat)
    requires BlankLastLine(body)
    ensures JoinedBody(body, n) == (if DropLines(body, n) == "\n" then "" else DropLines(body, n))
  {
    var g := GetLines(body);
    LastLineEmpty(body);
    assert BodyLines(body) == g;
    if n < |g| {
      BlankLastJoin(body, n);
    } else {
      DropPastLines(body, n);
    }
  }

  lemma BlankLastJoin(body: string, n: nat)
    requires EndsWithNewline(body) && n < |GetLines(body)|
    ensures var joined := JoinLines(GetLines(body)[n..]);
      (if joined != "" then joined + "\n" else joined) == (if DropLines(body, n) == "\n" then "" else DropLines(body, n))
  {
    JoinDropLines(body, n);
    EmptyIffNewline(JoinLines(GetLines(body)[n..]), DropLines(body, n));
  }

  // ---------------------------------------------------------------------------
  // One block

  /** A language tag that the tag group reads back whole: non-empty, no space, tab or newline. */
  predicate ValidLanguage(language: string) {
    language != [] && forall i :: 0 <= i < |language| ==> IsTagChar(language[i])
  }

  /** The block each policy writes in place of a matched block. */
  function Edit(op: Op, b: Block): Block {
    match op
    case AddLanguage(language) => if b.lang == [] then b.(lang := language) else b
    case UpdateLanguage(language) => b.(lang := language)
    case RemoveLanguage => if b.lang != [] then Block(b.leading, "", "", b.body, b.trailing) else b
    case DeleteLines(n) => b.(body := DeletedBody(b.body, n))
  }

  /** Whether the policy sets has_modification for this block. */
  predicate Changes(op: Op, b: Block) {
    match op
    case AddLanguage(_) => b.lang == []
    case UpdateLanguage(_) => true
    case RemoveLanguage => b.lang != []
    case DeleteLines(n) => DeletedBody(b.body, n) != b.body
  }

  /** Policies whose edited blocks are matched again with the same captures. */
  predicate KeepsShape(op: Op) {
    match op
    case AddLanguage(language) => ValidLanguage(language)
    case UpdateLanguage(language) => ValidLanguage(language)
    case _ => true
  }

  /**
   * Apart from updating, which counts every block, a policy reports a change
   * exactly when it writes a different block.
   */
  lemma ChangesIffEdited(op: Op, b: Block)
    requires !op.UpdateLanguage? && op != AddLanguage([])
    ensures Changes(op, b) <==> Edit(op, b) != b
  {
    if op.RemoveLanguage? && b.lang != [] {
      assert Edit(op, b).lang != b.lang;
    }
  }

  /** An untagged match has nothing else on its opening line. */
  lemma UntaggedHasNoRest(b: Block)
    requires WellFormed(b) && b.lang == []
    ensures b.rest == []
  {
    assert b.lang + b.rest + "\n" == b.rest + "\n";
  }

  lemma ValidLanguageWellFormed(b: Block, language: string)
    requires WellFormed(b) && ValidLanguage(language)
    ensures WellFormed(b.(lang := language))
  {
    var d := b.(lang := language);
    assert (d.lang + d.rest + "\n")[0] == language[0];
  }

  lemma RemovedWellFormed(b: Block)
    requires WellFormed(b)
    ensures WellFormed(Block(b.leading, "", "", b.body, b.trailing))
  {
    var d := Block(b.leading, "", "", b.body, b.trailing);
    assert d.body + d.trailing + Ticks == b.body + b.trailing + Ticks;
  }

  /** A body that is a suffix of a well-formed block's body keeps the block well formed. */
  lemma SuffixBodyWellFormed(b: Block, j: nat)
    requires WellFormed(b) && j <= |b.body|
    ensures WellFormed(b.(body := b.body[j..]))
  {
    var d := b.(body := b.body[j..]);
    var u := b.body + b.trailing + Ticks;
    assert d.body + d.trailing + Ticks == u[j..];
    forall k | 0 <= k < |d.body| + |d.trailing|
      ensures !FenceAt(d.body + d.trailing + Ticks, k)
    {
      assert !FenceAt(u, k + j);
    }
  }

  /** So does such a suffix followed by one more newline. */
  lemma SuffixNewlineBodyWellFormed(b: Block, j: nat)
    requires WellFormed(b) && j <= |b.body|
    ensures WellFormed(b.(body := b.body[j..] + "\n"))
  {
    var d := b.(body := b.body[j..] + "\n");
    var u := b.body + b.trailing + Ticks;
    var v := d.body + d.trailing + Ticks;
    var m := |b.body| - j;
    assert v == u[j..|b.body|] + "\n" + b.trailing + Ticks;
    forall k | 0 <= k < |d.body| + |d.trailing|
      ensures !FenceAt(v, k)
    {
      if k + 2 < m {
        assert v[k..k + 3] == u[k + j..k + j + 3];
        assert !FenceAt(u, k + j);
      } else if k <= m {
        assert v[m] == '\n';
      } else {
        assert v[k] == b.trailing[k - m - 1];
      }
    }
  }

  lemma DeletedWellFormed(b: Block, n: nat)
    requires WellFormed(b)
    ensures WellFormed(b.(body := DeletedBody(b.body, n)))
  {
    var dropped := DropLines(b.body, n);
    var j := DropLinesSuffix(b.body, n);
    var d := DeletedBody(b.body, n);
    if d == dropped {
      SuffixBodyWellFormed(b, j);
    } else if d == "" {
      SuffixBodyWellFormed(b, |b.body|);
      assert b.body[|b.body|..] == "";
    } else {
      assert d == dropped + "\n";
      SuffixNewlineBodyWellFormed(b, j);
    }
  }

  /** Every policy whose language is a valid tag leaves a well-formed block well formed. */
  lemma EditWellFormed(op: Op, b: Block)
    requires KeepsShape(op) && WellFormed(b)
    ensures WellFormed(Edit(op, b))
  {
    match op
    case AddLanguage(language) =>
      if b.lang == [] { ValidLanguageWellFormed(b, language); }
    case UpdateLanguage(language) =>
      ValidLanguageWellFormed(b, language);
    case RemoveLanguage =>
      if b.lang != [] { RemovedWellFormed(b); }
    case DeleteLines(n) =>
      DeletedWellFormed(b, n);
  }

  // ---------------------------------------------------------------------------
  // A whole document

  /** The matches of the pattern in `s`, in the order the FindAndConsume loop meets them. */
  function Blocks(s: string): seq<Block>
    decreases |s|
  {
    match FindAndConsume(s)
    case None => []
    case Some(m) => [m.block] + Blocks(m.remaining)
  }

  /** The text before each match, and the text after the last one. */
  function Gaps(s: string): (r: seq<string>)
    ensures |r| == |Blocks(s)| + 1
    decreases |s|
  {
    match FindAndConsume(s)
    case None => [s]
    case Some(m) => [s[..MatchStart(s, m)]] + Gaps(m.remaining)
  }

  /** Gaps and blocks interleaved, each block written from its captures. */
  function Assemble(gaps: seq<string>, blocks: seq<Block>): string
    requires |gaps| == |blocks| + 1
    decreases |blocks|
  {
    if blocks == [] then gaps[0]
    else gaps[0] + Render(blocks[0]) + Assemble(gaps[1..], blocks[1..])
  }

  function EditAll(op: Op, blocks: seq<Block>): (r: seq<Block>)
    ensures |r| == |blocks| && forall i :: 0 <= i < |blocks| ==> r[i] == Edit(op, blocks[i])
  {
    seq(|blocks|, i requires 0 <= i < |blocks| => Edit(op, blocks[i]))
  }

  lemma EditAllCons(op: Op, b: Block, blocks: seq<Block>)
    ensures EditAll(op, [b] + blocks) == [Edit(op, b)] + EditAll(op, blocks)
  {
  }

  /** The text an editing loop builds: gaps copied, each match replaced by its edit, the tail copied. */
  function Rewrite(s: string, op: Op): string
    decreases |s|
  {
    match FindAndConsume(s)
    case None => s
    case Some(m) => s[..MatchStart(s, m)] + Render(Edit(op, m.block)) + Rewrite(m.remaining, op)
  }

  /** The final value of has_modification. */
  predicate AnyChange(s: string, op: Op)
    decreases |s|
  {
    match FindAndConsume(s)
    case None => false
    case Some(m) => Changes(op, m.block) || AnyChange(m.remaining, op)
  }

  /** One step of the decomposition: the text is the gap, the matched block, and the rest. */
  lemma ConsumeSplits(s: string)
    requires FindAndConsume(s).Some?
    ensures var m := FindAndConsume(s).value;
      && 0 <= MatchStart(s, m)
      && s == s[..MatchStart(s, m)] + Render(m.block) + m.remaining
  {
    var m := FindAndConsume(s).value;
    FindAndConsumeSound(s);
    var p := MatchStart(s, m);
    assert s[p..p + Size(m.block)] == Render(m.block);
    ThreeSlices(s, p, p + Size(m.block));
  }

  /** Writing every match back from its captures, between the gaps, gives the document back. */
  lemma {:induction false} Decompose(s: string)
    ensures Assemble(Gaps(s), Blocks(s)) == s
    ensures forall i :: 0 <= i < |Blocks(s)| ==> WellFormed(Blocks(s)[i])
    decreases |s|
  {
    match FindAndConsume(s)
    case None =>
    case Some(m) =>
      ConsumeSplits(s);
      ConsumedWellFormed(s);
      Decompose(m.remaining);
      assert Gaps(s)[1..] == Gaps(m.remaining);
      assert Blocks(s)[1..] == Blocks(m.remaining);
  }

  /** A rewrite copies every gap and replaces every match by its edit. */
  lemma {:induction false} RewriteAssembles(s: string, op: Op)
    ensures Rewrite(s, op) == Assemble(Gaps(s), EditAll(op, Blocks(s)))
    decreases |s|
  {
    match FindAndConsume(s)
    case None =>
    case Some(m) =>
      RewriteAssembles(m.remaining, op);
      assert Blocks(s) == [m.block] + Blocks(m.remaining);
      EditAllCons(op, m.block, Blocks(m.remaining));
      assert Gaps(s)[1..] == Gaps(m.remaining);
      assert EditAll(op, Blocks(s))[1..] == EditAll(op, Blocks(m.remaining));
  }

  predicate SomeChanged(op: Op, blocks: seq<Block>) {
    exists i :: 0 <= i < |blocks| && Changes(op, blocks[i])
  }

  lemma SomeChangedCons(op: Op, b: Block, blocks: seq<Block>)
    ensures SomeChanged(op, [b] + blocks) <==> Changes(op, b) || SomeChanged(op, blocks)
  {
    if Changes(op, b) || SomeChanged(op, blocks) {
      SomeChangedConsIf(op, b, blocks);
    }
    if SomeChanged(op, [b] + blocks) {
      SomeChangedConsOnlyIf(op, b, blocks);
    }
  }

  lemma SomeChangedConsIf(op: Op, b: Block, blocks: seq<Block>)
    requires Changes(op, b) || SomeChanged(op, blocks)
    ensures SomeChanged(op, [b] + blocks)
  {
    var bs := [b] + blocks;
    if Changes(op, b) {
      assert bs[0] == b;
    } else {
      var i :| 0 <= i < |blocks| && Changes(op, blocks[i]);
      assert bs[i + 1] == blocks[i];
    }
  }

  lemma SomeChangedConsOnlyIf(op: Op, b: Block, blocks: seq<Block>)
    requires SomeChanged(op, [b] + blocks)
    ensures Changes(op, b) || SomeChanged(op, blocks)
  {
    var bs := [b] + blocks;
    var i :| 0 <= i < |bs| && Changes(op, bs[i]);
    if i > 0 {
      assert bs[i] == blocks[i - 1];
    }
  }

  /** has_modification ends true exactly when some match is changed. */
  lemma {:induction false} AnyChangeSome(s: string, op: Op)
    ensures AnyChange(s, op) <==> SomeChanged(op, Blocks(s))
    decreases |s|
  {
    if FindAndConsume(s).Some? {
      var m := FindAndConsume(s).value;
      AnyChangeSome(m.remaining, op);
      SomeChangedCons(op, m.block, Blocks(m.remaining));
    }
  }

  lemma PrefixOfConcat(a: string, b: string, c: string)
    ensures (a + b + c)[..|a|] == a
  {
  }

  /**
   * Rewriting with a policy that keeps blocks well formed leaves the gaps
   * where they were and makes the edited blocks the matches of the output.
   */
  lemma RescanStep(s: string, op: Op)
    requires KeepsShape(op) && FindAndConsume(s).Some?
    ensures var m := FindAndConsume(s).value;
      var d := Edit(op, m.block);
      var t := Rewrite(s, op);
      && FindAndConsume(t) == Some(Consumed(d, Rewrite(m.remaining, op)))
      && t[..MatchStart(t, Consumed(d, Rewrite(m.remaining, op)))] == s[..MatchStart(s, m)]
  {
    var m := FindAndConsume(s).value;
    var p := MatchStart(s, m);
    ConsumedWellFormed(s);
    EditWellFormed(op, m.block);
    var d := Edit(op, m.block);
    var x := Rewrite(m.remaining, op);
    ConsumeRescan(s, d, x);
    var t := s[..p] + Render(d) + x;
    assert Rewrite(s, op) == t;
    assert MatchStart(t, Consumed(d, x)) == p;
    PrefixOfConcat(s[..p], Render(d), x);
  }

  lemma {:induction false} RewriteRescans(s: string, op: Op)
    requires KeepsShape(op)
    ensures Gaps(Rewrite(s, op)) == Gaps(s)
    ensures Blocks(Rewrite(s, op)) == EditAll(op, Blocks(s))
    decreases |s|
  {
    if FindAndConsume(s).Some? {
      var m := FindAndConsume(s).value;
      RescanStep(s, op);
      RewriteRescans(m.remaining, op);
      assert Blocks(s) == [m.block] + Blocks(m.remaining);
      EditAllCons(op, m.block, Blocks(m.remaining));
    }
  }

  // ---------------------------------------------------------------------------
  // What the policies promise

  /** Running a shape-keeping policy and then another edits each match twice and keeps the gaps. */
  lemma RewriteTwice(s: string, first: Op, second: Op)
    requires KeepsShape(first)
    ensures Rewrite(Rewrite(s, first), second) == Assemble(Gaps(s), EditAll(second, EditAll(first, Blocks(s))))
  {
    RewriteRescans(s, first);
    RewriteAssembles(Rewrite(s, first), second);
  }

  /** Updating twice with a valid tag writes what updating once wrote. */
  lemma UpdateIdempotent(s: string, language: string)
    requires ValidLanguage(language)
    ensures Rewrite(Rewrite(s, UpdateLanguage(language)), UpdateLanguage(language)) == Rewrite(s, UpdateLanguage(language))
  {
    var op := UpdateLanguage(language);
    RewriteTwice(s, op, op);
    RewriteAssembles(s, op);
    assert EditAll(op, EditAll(op, Blocks(s))) == EditAll(op, Blocks(s));
  }

  /** Adding a valid tag twice writes what adding it once wrote. */
  lemma AddIdempotent(s: string, language: string)
    requires ValidLanguage(language)
    ensures Rewrite(Rewrite(s, AddLanguage(language)), AddLanguage(language)) == Rewrite(s, AddLanguage(language))
  {
    var op := AddLanguage(language);
    RewriteTwice(s, op, op);
    RewriteAssembles(s, op);
    assert EditAll(op, EditAll(op, Blocks(s))) == EditAll(op, Blocks(s));
  }

  /** Removing tags twice writes what removing them once wrote. */
  lemma RemoveIdempotent(s: string)
    ensures Rewrite(Rewrite(s, RemoveLanguage), RemoveLanguage) == Rewrite(s, RemoveLanguage)
  {
    RewriteTwice(s, RemoveLanguage, RemoveLanguage);
    RewriteAssembles(s, RemoveLanguage);
    assert EditAll(RemoveLanguage, EditAll(RemoveLanguage, Blocks(s))) == EditAll(RemoveLanguage, Blocks(s));
  }

  /** A second addl_ run over its own output finds no untagged block, so it reports no change. */
  lemma AddThenNothingToAdd(s: string, language: string)
    requires ValidLanguage(language)
    ensures !AnyChange(Rewrite(s, AddLanguage(language)), AddLanguage(language))
  {
    var op := AddLanguage(language);
    RewriteRescans(s, op);
    AnyChangeSome(Rewrite(s, op), op);
  }

  /** A second rmvl_ run over its own output finds no tagged block, so it reports no change. */
  lemma RemoveThenNothingToRemove(s: string)
    ensures !AnyChange(Rewrite(s, RemoveLanguage), RemoveLanguage)
  {
    var after := Blocks(Rewrite(s, RemoveLanguage));
    RewriteRescans(s, RemoveLanguage);
    AnyChangeSome(Rewrite(s, RemoveLanguage), RemoveLanguage);
    forall i | 0 <= i < |after|
      ensures after[i].lang == []
    {
      assert after[i] == Edit(RemoveLanguage, Blocks(s)[i]);
    }
  }

  /** Every block of an addl_ result is tagged, and the blocks that already were are untouched. */
  lemma AddTagsEveryBlock(s: string, language: string)
    requires ValidLanguage(language)
    ensures var before := Blocks(s);
      var after := Blocks(Rewrite(s, AddLanguage(language)));
      && |after| == |before|
      && (forall i :: 0 <= i < |after| ==> after[i].lang != [])
      && (forall i :: 0 <= i < |after| && before[i].lang == [] ==> after[i] == before[i].(lang := language))
      && (forall i :: 0 <= i < |after| && before[i].lang != [] ==> after[i] == before[i])
  {
    RewriteRescans(s, AddLanguage(language));
  }

  /** Every block of an updl_ result carries the new tag and keeps everything else. */
  lemma UpdateTagsEveryBlock(s: string, language: string)
    requires ValidLanguage(language)
    ensures var before := Blocks(s);
      var after := Blocks(Rewrite(s, UpdateLanguage(language)));
      && |after| == |before|
      && forall i :: 0 <= i < |after| ==> after[i] == before[i].(lang := language)
  {
    RewriteRescans(s, UpdateLanguage(language));
  }

  /** Every block of an rmvl_ result has an empty opening line after its leading blanks. */
  lemma RemoveUntagsEveryBlock(s: string)
    ensures var before := Blocks(s);
      var after := Blocks(Rewrite(s, RemoveLanguage));
      && |after| == |before|
      && forall i :: 0 <= i < |after| ==>
        after[i] == Block(before[i].leading, "", "", before[i].body, before[i].trailing)
  {
    Decompose(s);
    RewriteRescans(s, RemoveLanguage);
    forall i | 0 <= i < |Blocks(s)|
      ensures Edit(RemoveLanguage, Blocks(s)[i]) == Block(Blocks(s)[i].leading, "", "", Blocks(s)[i].body, Blocks(s)[i].trailing)
    {
      if Blocks(s)[i].lang == [] {
        UntaggedHasNoRest(Blocks(s)[i]);
      }
    }
  }

  /** Every block of a delcl_ result keeps its opening line and trailing blanks, and its body loses its first lines. */
  lemma DeleteEditsEveryBody(s: string, n: nat)
    ensures Gaps(Rewrite(s, DeleteLines(n))) == Gaps(s)
    ensures var before := Blocks(s);
      var after := Blocks(Rewrite(s, DeleteLines(n)));
      && |after| == |before|
      && forall i :: 0 <= i < |after| ==> after[i] == before[i].(body := DeletedBody(before[i].body, n))
  {
    RewriteRescans(s, DeleteLines(n));
  }

  lemma AddThenRemoveBlocks(blocks: seq<Block>, language: string)
    requires forall i :: 0 <= i < |blocks| ==> WellFormed(blocks[i])
    ensures EditAll(RemoveLanguage, EditAll(AddLanguage(language), blocks)) == EditAll(RemoveLanguage, blocks)
  {
    forall i | 0 <= i < |blocks|
      ensures Edit(RemoveLanguage, Edit(AddLanguage(language), blocks[i])) == Edit(RemoveLanguage, blocks[i])
    {
      if blocks[i].lang == [] {
        UntaggedHasNoRest(blocks[i]);
      }
    }
  }

  /** Adding tags and then removing them writes what removing them alone writes. */
  lemma AddThenRemove(s: string, language: string)
    requires ValidLanguage(language)
    ensures Rewrite(Rewrite(s, AddLanguage(language)), RemoveLanguage) == Rewrite(s, RemoveLanguage)
  {
    Decompose(s);
    RewriteTwice(s, AddLanguage(language), RemoveLanguage);
    RewriteAssembles(s, RemoveLanguage);
    AddThenRemoveBlocks(Blocks(s), language);
  }

  /**
   * Per block, removing the tag and adding the language writes what updating
   * the language writes exactly when the opening line has nothing after the
   * tag: rmvl_ drops that rest of the line, updl_ keeps it.
   */
  lemma RemoveThenAddBlock(b: Block, language: string)
    requires WellFormed(b)
    ensures Edit(AddLanguage(language), Edit(RemoveLanguage, b)) == Edit(UpdateLanguage(language), b) <==> b.rest == []
  {
    if b.lang == [] {
      UntaggedHasNoRest(b);
    }
  }

  /** Removing tags and then adding the language writes what updating it writes, when no opening line has text after its tag. */
  lemma RemoveThenAdd(s: string, language: string)
    requires forall i :: 0 <= i < |Blocks(s)| ==> Blocks(s)[i].rest == []
    ensures Rewrite(Rewrite(s, RemoveLanguage), AddLanguage(language)) == Rewrite(s, UpdateLanguage(language))
  {
    Decompose(s);
    RewriteTwice(s, RemoveLanguage, AddLanguage(language));
    RewriteAssembles(s, UpdateLanguage(language));
    forall i | 0 <= i < |Blocks(s)|
      ensures Edit(AddLanguage(language), Edit(RemoveLanguage, Blocks(s)[i])) == Edit(UpdateLanguage(language), Blocks(s)[i])
    {
      RemoveThenAddBlock(Blocks(s)[i], language);
    }
    assert EditAll(AddLanguage(language), EditAll(RemoveLanguage, Blocks(s))) == EditAll(UpdateLanguage(language), Blocks(s));
  }

  /** A policy that changes no block writes the document back unchanged. */
  lemma {:induction false} UnchangedRewrite(s: string, op: Op)
    requires !op.UpdateLanguage? && !AnyChange(s, op)
    ensures Rewrite(s, op) == s
    decreases |s|
  {
    if FindAndConsume(s).Some? {
      var m := FindAndConsume(s).value;
      ConsumeSplits(s);
      UnchangedRewrite(m.remaining, op);
      UnchangedEdit(op, m.block);
    }
  }

  /** A block the policy does not change is written back as it was. */
  lemma UnchangedEdit(op: Op, b: Block)
    requires !op.UpdateLanguage? && !Changes(op, b)
    ensures Edit(op, b) == b
  {
  }

  /** updl_ reports a change exactly when the document has a block. */
  lemma UpdateChangesIffBlock(s: string, language: string)
    ensures AnyChange(s, UpdateLanguage(language)) <==> !NoBlock(s)
  {
    FindAndConsumeNone(s);
  }

  /** Deleting the first line of "a\nb\n" leaves "b\n" with one more newline: delcl_ writes a blank line the body did not have. */
  lemma DeleteLinesDoubleNewline()
    ensures DeletedBody("a\nb\n", 1) == "b\n\n"
  {
    var s := "a\nb\n";
    assert NextNewline(s, 1) == 1;
    assert NextNewline(s, 0) == 1;
    assert s[2..] == "b\n";
    assert DropLines(s, 1) == "b\n";
  }

  /** Deleting the first line of "a\n\n" leaves nothing: the lone newline of the blank last line goes too. */
  lemma DeleteLinesBlankLast()
    ensures DeletedBody("a\n\n", 1) == ""
  {
    var s := "a\n\n";
    assert NextNewline(s, 1) == 1;
    assert NextNewline(s, 0) == 1;
    assert s[2..] == "\n";
    assert DropLines(s, 1) == "\n";
  }

  /** A body without a final newline keeps its last line as it was. */
  lemma DeleteLinesNoFinalNewline()
    ensures DeletedBody("a\nb", 1) == "b"
  {
    var s := "a\nb";
    assert NextNewline(s, 1) == 1;
    assert NextNewline(s, 0) == 1;
    assert s[2..] == "b";
    assert DropLines(s, 1) == "b";
  }

  /** Deleting as many lines as the body has leaves it empty. */
  lemma DeleteLinesAll()
    ensures DeletedBody("a\nb\n", 2) == ""
  {
    var s := "a\nb\n";
    assert NextNewline(s, 1) == 1;
    assert NextNewline(s, 0) == 1;
    assert s[2..] == "b\n";
    assert NextNewline("b\n", 1) == 1;
    assert NextNewline("b\n", 0) == 1;
    assert "b\n"[2..] == "";
    assert DropLines(s, 2) == "";
  }

  /** A body without backticks can never hold a closing fence. */
  lemma NoTicksNoFence(b: Block)
    requires forall i :: 0 <= i < |b.body| ==> b.body[i] != '`'
    requires AllBlank(b.trailing)
    ensures forall k :: 0 <= k < |b.body| + |b.trailing| ==> !FenceAt(b.body + b.trailing + Ticks, k)
  {
    var u := b.body + b.trailing + Ticks;
    forall k | 0 <= k < |b.body| + |b.trailing|
      ensures !FenceAt(u, k)
    {
      if k < |b.body| {
        assert u[k] == b.body[k];
      } else {
        assert u[k] == b.trailing[k - |b.body|];
      }
    }
  }

  /** The conditions of WellFormed on the opening line. */
  predicate WellFormedHeader(b: Block) {
    && AllBlank(b.leading)
    && (forall i :: 0 <= i < |b.lang| ==> IsTagChar(b.lang[i]))
    && (forall i :: 0 <= i < |b.rest| ==> b.rest[i] != '\n')
    && !IsBlank((b.lang + b.rest + "\n")[0])
    && !IsTagChar((b.rest + "\n")[0])
  }

  /** A document that starts with a block whose body has no backtick holds that block as its first match. */
  lemma SingleBlockMatch(b: Block, after: string)
    requires forall i :: 0 <= i < |b.body| ==> b.body[i] != '`'
    requires WellFormedHeader(b) && AllBlank(b.trailing) && (b.body == [] || !IsBlank(b.body[|b.body| - 1]))
    ensures FindAndConsume(Render(b) + after) == Some(Consumed(b, after))
  {
    NoTicksNoFence(b);
    var s := Render(b) + after;
    assert s[0..Size(b)] == Render(b);
    assert s[Size(b)..] == after;
    FindAndConsumeComplete(s, 0, b);
  }

  /** A document whose only match sits at its start rewrites to that block's edit followed by the rest, and changes exactly when the block does. */
  lemma SingleMatchRewrite(s: string, m: Consumed, op: Op)
    requires FindAndConsume(s) == Some(m) && MatchStart(s, m) == 0
    requires FindAndConsume(m.remaining).None?
    ensures Rewrite(s, op) == Render(Edit(op, m.block)) + m.remaining
    ensures AnyChange(s, op) == Changes(op, m.block)
  {
    RewriteUnfold(s, op, m);
    RewriteNone(m.remaining, op);
    EmptyPrefix(s, Render(Edit(op, m.block)), m.remaining);
  }

  /** A text without a match is written back as it is, with no change reported. */
  lemma RewriteNone(s: string, op: Op)
    requires FindAndConsume(s).None?
    ensures Rewrite(s, op) == s && !AnyChange(s, op)
  {
  }

  lemma EmptyPrefix(s: string, a: string, b: string)
    ensures s[..0] + a + b == a + b
  {
    assert s[..0] == [];
  }

  /** Rewrite and AnyChange after one match. */
  lemma RewriteUnfold(input: string, op: Op, m: Consumed)
    requires FindAndConsume(input) == Some(m)
    ensures Rewrite(input, op) == input[..MatchStart(input, m)] + Render(Edit(op, m.block)) + Rewrite(m.remaining, op)
    ensures AnyChange(input, op) == (Changes(op, m.block) || AnyChange(m.remaining, op))
  {
  }

  /** The block of the addl_ scenario, "```\nhello\nworld\n```", which has no tag. */
  const HelloBlock := Block("", "", "", "hello\nworld\n", "")

  /** The block of the rmvl_ scenario, "```py\ncode\n```", tagged py. */
  const PyBlock := Block("", "py", "", "code\n", "")

  /** addl_ on a document whose single block is untagged: the block gets the tag, the final newline stays. */
  lemma AddScenario()
    ensures Rewrite(Render(HelloBlock) + "\n", AddLanguage("text")) == Render(HelloBlock.(lang := "text")) + "\n"
    ensures AnyChange(Render(HelloBlock) + "\n", AddLanguage("text"))
  {
    var b := HelloBlock;
    assert forall i :: 0 <= i < |b.body| ==> b.body[i] != '`';
    SingleBlockMatch(b, "\n");
    assert FindAndConsume("\n") == None;
    var m := Consumed(b, "\n");
    assert MatchStart(Render(b) + "\n", m) == 0;
    SingleMatchRewrite(Render(b) + "\n", m, AddLanguage("text"));
  }

  /** rmvl_ on a document whose single block is tagged: the tag goes, nothing else changes. */
  lemma RemoveScenario()
    ensures Rewrite(Render(PyBlock), RemoveLanguage) == Render(PyBlock.(lang := ""))
    ensures AnyChange(Render(PyBlock), RemoveLanguage)
  {
    var b := PyBlock;
    assert forall i :: 0 <= i < |b.body| ==> b.body[i] != '`';
    SingleBlockMatch(b, "");
    assert FindAndConsume("") == None;
    var m := Consumed(b, "");
    assert MatchStart(Render(b) + "", m) == 0;
    SingleMatchRewrite(Render(b) + "", m, RemoveLanguage);
    assert Render(b) + "" == Render(b);
    assert Render(Edit(RemoveLanguage, b)) + "" == Render(PyBlock.(lang := ""));
  }
}
