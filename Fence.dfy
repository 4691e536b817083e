/**
 * The fenced-code-block pattern shared by the editing tools,
 *
 *     ```([ \t]*)([^ \t\n]*)([^\n]*)\n([\s\S]*?)([ \t]*)```
 *
 * replaced by an explicit scanner with RE2's leftmost-first semantics.
 * A char of the model stands for one byte of a std::string.
 */
module Fence {
  import opened Wrappers

  /** One match of the pattern, capture group by capture group. */
  datatype Block = Block(leading: string, lang: string, rest: string, body: string, trailing: string)

  /** What one FindAndConsume call yields: the captures and the input left after the match. */
  datatype Consumed = Consumed(block: Block, remaining: string)

  const Ticks: string := "```"

  predicate IsBlank(c: char) { c == ' ' || c == '\t' }

  /** The class [^ \t\n] of the tag group. */
  predicate IsTagChar(c: char) { c != ' ' && c != '\t' && c != '\n' }

  predicate FenceAt(s: string, i: int) {
    0 <= i && i + 3 <= |s| && s[i] == '`' && s[i + 1] == '`' && s[i + 2] == '`'
  }

  /** The length of a whole match, summed the way the editing loops sum it. */
  function Size(b: Block): nat {
    3 + |b.leading| + |b.lang| + |b.rest| + 1 + |b.body| + |b.trailing| + 3
  }

  /** A block written back from its captures. */
  function Render(b: Block): (r: string)
    ensures |r| == Size(b)
  {
    Ticks + b.leading + b.lang + b.rest + "\n" + b.body + b.trailing + Ticks
  }

  predicate AllBlank(s: string) { forall i :: 0 <= i < |s| ==> IsBlank(s[i]) }

  /**
   * The captures of a match as the pattern and its priorities shape them:
   * each group stays inside its character class, the greedy groups
   * took all they could, and the lazy body stopped at the first closing
   * fence.
   */
  predicate WellFormed(b: Block) {
    && AllBlank(b.leading)
    && (forall i :: 0 <= i < |b.lang| ==> IsTagChar(b.lang[i]))
    && (forall i :: 0 <= i < |b.rest| ==> b.rest[i] != '\n')
    && AllBlank(b.trailing)
    // [ \t]* took every blank after the opening ticks
    && !IsBlank((b.lang + b.rest + "\n")[0])
    // [^ \t\n]* took the whole tag
    && !IsTagChar((b.rest + "\n")[0])
    // the lazy body is as short as it can be, so the trailing group holds every blank before the closing ticks
    && (b.body == [] || !IsBlank(b.body[|b.body| - 1]))
    // and no earlier closing fence exists after the opening line
    && (forall k :: 0 <= k < |b.body| + |b.trailing| ==> !FenceAt(b.body + b.trailing + Ticks, k))
  }

  /** `b` is the match RE2 finds in `s`, and it starts at `p`. */
  ghost predicate Leftmost(s: string, p: nat, b: Block) {
    && Placed(s, p, b)
    && WellFormed(b)
    && (forall k :: 0 <= k < p ==> !FenceAt(s, k))
  }

  /** No fence is followed, after a newline, by another fence: the pattern has no match in `s`. */
  ghost predicate NoBlock(s: string) {
    forall p, n, k :: FenceAt(s, p) && p + 3 <= n < k && n < |s| && s[n] == '\n' ==> !FenceAt(s, k)
  }

  // ---------------------------------------------------------------------------
  // Scanning helpers

  /** The first fence at or after `i`, or |s| when there is none; FirstFence proves it is the first. */
  function NextFence(s: string, i: nat): (r: nat)
    requires i <= |s|
    ensures i <= r <= |s|
    ensures r == |s| || FenceAt(s, r)
    decreases |s| - i
  {
    if i + 3 > |s| then |s|
    else if FenceAt(s, i) then i
    else NextFence(s, i + 1)
  }

  /** The first newline at or after `i`, or |s| when there is none; FirstNewline proves it is the first. */
  function NextNewline(s: string, i: nat): (r: nat)
    requires i <= |s|
    ensures i <= r <= |s|
    ensures r < |s| ==> s[r] == '\n'
    decreases |s| - i
  {
    if i == |s| || s[i] == '\n' then i else NextNewline(s, i + 1)
  }

  /** The end of the run of spaces and tabs that starts at `i`; BlankRun proves the run is blank. */
  function BlankEnd(s: string, i: nat): (r: nat)
    requires i <= |s|
    ensures i <= r <= |s|
    ensures r < |s| ==> !IsBlank(s[r])
    decreases |s| - i
  {
    if i == |s| || !IsBlank(s[i]) then i else BlankEnd(s, i + 1)
  }

  /** The end of the run of tag characters that starts at `i`; TagRun proves the run holds tag characters only. */
  function TagEnd(s: string, i: nat): (r: nat)
    requires i <= |s|
    ensures i <= r <= |s|
    ensures r < |s| ==> !IsTagChar(s[r])
    decreases |s| - i
  {
    if i == |s| || !IsTagChar(s[i]) then i else TagEnd(s, i + 1)
  }

  /** The start of the run of spaces and tabs that ends at `hi`, not before `lo`; BlankRunBefore proves the run is blank. */
  function BlankStart(s: string, lo: nat, hi: nat): (r: nat)
    requires lo <= hi <= |s|
    ensures lo <= r <= hi
    ensures r == lo || !IsBlank(s[r - 1])
    decreases hi - lo
  {
    if hi == lo || !IsBlank(s[hi - 1]) then hi else BlankStart(s, lo, hi - 1)
  }

  /** Neither a blank run nor the tag run that follows it goes past a newline. */
  lemma RunsStopAtNewline(s: string, i: nat, nl: nat)
    requires i <= nl < |s| && s[nl] == '\n'
    ensures BlankEnd(s, i) <= nl && TagEnd(s, BlankEnd(s, i)) <= nl
  {
    BlankRun(s, i);
    TagRun(s, BlankEnd(s, i));
  }

  lemma {:induction false} FirstFence(s: string, i: nat)
    requires i <= |s|
    ensures forall k :: i <= k < NextFence(s, i) ==> !FenceAt(s, k)
    decreases |s| - i
  {
    if i + 3 <= |s| && !FenceAt(s, i) {
      FirstFence(s, i + 1);
    }
  }

  lemma {:induction false} FirstNewline(s: string, i: nat)
    requires i <= |s|
    ensures forall k :: i <= k < NextNewline(s, i) ==> s[k] != '\n'
    decreases |s| - i
  {
    if i < |s| && s[i] != '\n' {
      FirstNewline(s, i + 1);
    }
  }

  lemma {:induction false} BlankRun(s: string, i: nat)
    requires i <= |s|
    ensures forall k :: i <= k < BlankEnd(s, i) ==> IsBlank(s[k])
    decreases |s| - i
  {
    if i < |s| && IsBlank(s[i]) {
      BlankRun(s, i + 1);
    }
  }

  lemma {:induction false} TagRun(s: string, i: nat)
    requires i <= |s|
    ensures forall k :: i <= k < TagEnd(s, i) ==> IsTagChar(s[k])
    decreases |s| - i
  {
    if i < |s| && IsTagChar(s[i]) {
      TagRun(s, i + 1);
    }
  }

  lemma {:induction false} BlankRunBefore(s: string, lo: nat, hi: nat)
    requires lo <= hi <= |s|
    ensures forall k :: BlankStart(s, lo, hi) <= k < hi ==> IsBlank(s[k])
    decreases hi - lo
  {
    if hi > lo && IsBlank(s[hi - 1]) {
      BlankRunBefore(s, lo, hi - 1);
    }
  }

  // ---------------------------------------------------------------------------
  // The scanner

  /** Positions of one match in the input: the opening ticks, the tag, the newline, the trailing blanks, the closing ticks. */
  datatype Cuts = Cuts(start: nat, tagStart: nat, tagEnd: nat, newline: nat, trailStart: nat, close: nat)

  predicate Ordered(s: string, c: Cuts) {
    c.start + 3 <= c.tagStart <= c.tagEnd <= c.newline && c.newline + 1 <= c.trailStart <= c.close && c.close + 3 <= |s|
  }

  /**
   * The match at `c`, position by position: the first fence of `s`, the
   * first newline after it, the first fence after that newline, and the
   * group boundaries where the greedy runs end.
   */
  ghost predicate MatchCuts(s: string, c: Cuts) {
    && Ordered(s, c)
    && FenceAt(s, c.start) && s[c.newline] == '\n' && FenceAt(s, c.close)
    && (forall k :: 0 <= k < c.start ==> !FenceAt(s, k))
    && (forall k :: c.start + 3 <= k < c.newline ==> s[k] != '\n')
    && (forall k :: c.newline + 1 <= k < c.close ==> !FenceAt(s, k))
    && (forall k :: c.start + 3 <= k < c.tagStart ==> IsBlank(s[k])) && !IsBlank(s[c.tagStart])
    && (forall k :: c.tagStart <= k < c.tagEnd ==> IsTagChar(s[k])) && !IsTagChar(s[c.tagEnd])
    && (forall k :: c.trailStart <= k < c.close ==> IsBlank(s[k]))
    && (c.trailStart == c.newline + 1 || !IsBlank(s[c.trailStart - 1]))
  }

  /**
   * Where the leftmost match lies. The first "```" is the only candidate
   * start: if no newline follows it, or no "```" follows that newline,
   * no later "```" can start a match either.
   */
  function Locate(s: string): (r: Option<Cuts>)
    ensures r.Some? ==> Ordered(s, r.value)
  {
    var p := NextFence(s, 0);
    if p == |s| then None
    else
      var nl := NextNewline(s, p + 3);
      if nl == |s| then None
      else
        var close := NextFence(s, nl + 1);
        if close == |s| then None
        else
          var ls := BlankEnd(s, p + 3);
          RunsStopAtNewline(s, p + 3, nl);
          Some(Cuts(p, ls, TagEnd(s, ls), nl, BlankStart(s, nl + 1, close), close))
  }

  /** What Locate finds is a match, with every capture group as the pattern shapes it. */
  lemma LocateMatches(s: string)
    requires Locate(s).Some?
    ensures MatchCuts(s, Locate(s).value)
  {
    LocateHeader(s);
    LocateBody(s);
  }

  lemma LocateHeader(s: string)
    requires Locate(s).Some?
    ensures var c := Locate(s).value;
      && Ordered(s, c)
      && FenceAt(s, c.start) && s[c.newline] == '\n'
      && (forall k :: 0 <= k < c.start ==> !FenceAt(s, k))
      && (forall k :: c.start + 3 <= k < c.newline ==> s[k] != '\n')
      && (forall k :: c.start + 3 <= k < c.tagStart ==> IsBlank(s[k])) && !IsBlank(s[c.tagStart])
      && (forall k :: c.tagStart <= k < c.tagEnd ==> IsTagChar(s[k])) && !IsTagChar(s[c.tagEnd])
  {
    var p := NextFence(s, 0);
    FirstFence(s, 0);
    FirstNewline(s, p + 3);
    BlankRun(s, p + 3);
    TagRun(s, BlankEnd(s, p + 3));
  }

  lemma LocateBody(s: string)
    requires Locate(s).Some?
    ensures var c := Locate(s).value;
      && Ordered(s, c)
      && FenceAt(s, c.close)
      && (forall k :: c.newline + 1 <= k < c.close ==> !FenceAt(s, k))
      && (forall k :: c.trailStart <= k < c.close ==> IsBlank(s[k]))
      && (c.trailStart == c.newline + 1 || !IsBlank(s[c.trailStart - 1]))
  {
    var p := NextFence(s, 0);
    var nl := NextNewline(s, p + 3);
    FirstFence(s, nl + 1);
    BlankRunBefore(s, nl + 1, NextFence(s, nl + 1));
  }

  lemma LocateNone(s: string)
    requires Locate(s).None?
    ensures NoBlock(s)
  {
    var p0 := NextFence(s, 0);
    FirstFence(s, 0);
    if p0 < |s| {
      var nl := NextNewline(s, p0 + 3);
      FirstNewline(s, p0 + 3);
      if nl < |s| {
        FirstFence(s, nl + 1);
      }
    }
  }

  /** The captures between the cuts. */
  function BlockAt(s: string, c: Cuts): Block
    requires Ordered(s, c)
  {
    Block(s[c.start + 3..c.tagStart], s[c.tagStart..c.tagEnd], s[c.tagEnd..c.newline],
          s[c.newline + 1..c.trailStart], s[c.trailStart..c.close])
  }

  /** One RE2::FindAndConsume call: the leftmost match in `input` and what is left of `input` after it. */
  function FindAndConsume(input: string): (r: Option<Consumed>)
    ensures r.Some? ==> Size(r.value.block) + |r.value.remaining| <= |input|
  {
    match Locate(input)
    case None => None
    case Some(c) => Some(Consumed(BlockAt(input, c), input[c.close + 3..]))
  }

  /** What FindAndConsume leaves is the end of its input. */
  lemma ConsumedSuffix(input: string)
    requires FindAndConsume(input).Some?
    ensures FindAndConsume(input).value.remaining == input[|input| - |FindAndConsume(input).value.remaining|..]
  {
  }

  /** Where the match of a FindAndConsume call starts, computed as the editing loops compute it. */
  function MatchStart(input: string, c: Consumed): int {
    |input| - |c.remaining| - Size(c.block)
  }

  // ---------------------------------------------------------------------------
  // Where each capture sits in a rendered block

  /** `b` rendered at position `p` of `s`. */
  predicate Placed(s: string, p: nat, b: Block) {
    p + Size(b) <= |s| && s[p..p + Size(b)] == Render(b)
  }

  /** The character at offset `i` of Render(b), capture by capture; from the newline on it is read in body + trailing + Ticks. */
  lemma RenderChar(b: Block, i: nat)
    requires i < Size(b)
    ensures var o2 := 3 + |b.leading|; var o3 := o2 + |b.lang|; var o4 := o3 + |b.rest|;
      && (i < 3 ==> Render(b)[i] == '`')
      && (3 <= i < o2 ==> Render(b)[i] == b.leading[i - 3])
      && (o2 <= i < o3 ==> Render(b)[i] == b.lang[i - o2])
      && (o3 <= i < o4 ==> Render(b)[i] == b.rest[i - o3])
      && (i == o4 ==> Render(b)[i] == '\n')
      && (o4 < i ==> Render(b)[i] == (b.body + b.trailing + Ticks)[i - o4 - 1])
  {
  }

  lemma PlacedChar(s: string, p: nat, b: Block, k: nat)
    requires Placed(s, p, b) && p <= k < p + Size(b)
    ensures s[k] == Render(b)[k - p]
  {
    assert s[k] == s[p..p + Size(b)][k - p];
  }

  // ---------------------------------------------------------------------------
  // Positions against captures

  function CutsOf(p: nat, b: Block): Cuts {
    var ls := p + 3 + |b.leading|;
    var le := ls + |b.lang|;
    var nl := le + |b.rest|;
    var ts := nl + 1 + |b.body|;
    Cuts(p, ls, le, nl, ts, ts + |b.trailing|)
  }

  lemma ThreeSlices(s: string, a: nat, b: nat)
    requires a <= b <= |s|
    ensures s == s[..a] + s[a..b] + s[b..]
  {
  }

  /** Fences inside a slice are fences of the whole string. */
  lemma FenceInSlice(s: string, a: nat, c: nat, k: nat)
    requires a <= c <= |s| && k + 3 <= c - a
    ensures FenceAt(s[a..c], k) <==> FenceAt(s, a + k)
  {
  }

  /** The body, the trailing blanks and the closing ticks of the captures at `c` are the text after the newline. */
  lemma BodyRegionChar(s: string, c: Cuts, i: nat)
    requires Ordered(s, c) && FenceAt(s, c.close) && i < c.close + 3 - c.newline - 1
    ensures var b := BlockAt(s, c); (b.body + b.trailing + Ticks)[i] == s[c.newline + 1 + i]
  {
  }

  lemma RenderCutsChar(s: string, c: Cuts, i: nat)
    requires Ordered(s, c) && FenceAt(s, c.start) && s[c.newline] == '\n' && FenceAt(s, c.close)
    requires i < c.close + 3 - c.start
    ensures i < Size(BlockAt(s, c)) && Render(BlockAt(s, c))[i] == s[c.start + i]
  {
    var b := BlockAt(s, c);
    RenderChar(b, i);
    if c.newline - c.start < i {
      BodyRegionChar(s, c, i - (c.newline - c.start) - 1);
    }
  }

  /** Captures cut at consecutive positions of `s` render back to the slice they cover. */
  lemma RenderCuts(s: string, c: Cuts)
    requires Ordered(s, c) && FenceAt(s, c.start) && s[c.newline] == '\n' && FenceAt(s, c.close)
    ensures c.start + Size(BlockAt(s, c)) == c.close + 3
    ensures Placed(s, c.start, BlockAt(s, c))
  {
    var b := BlockAt(s, c);
    var t := s[c.start..c.close + 3];
    forall i | 0 <= i < Size(b)
      ensures Render(b)[i] == t[i]
    {
      RenderCutsChar(s, c, i);
    }
    assert Render(b) == t;
  }

  /** The header captures of the cuts of a match stay in their classes and took all they could. */
  lemma CutsHeader(s: string, c: Cuts)
    requires MatchCuts(s, c)
    ensures var b := BlockAt(s, c);
      && AllBlank(b.leading)
      && (forall i :: 0 <= i < |b.lang| ==> IsTagChar(b.lang[i]))
      && (forall i :: 0 <= i < |b.rest| ==> b.rest[i] != '\n')
      && !IsBlank((b.lang + b.rest + "\n")[0])
      && !IsTagChar((b.rest + "\n")[0])
  {
    var b := BlockAt(s, c);
    assert (b.lang + b.rest + "\n")[0] == s[c.tagStart] by {
      if b.lang == [] && b.rest == [] {
        assert c.tagStart == c.newline;
      }
    }
    assert (b.rest + "\n")[0] == s[c.tagEnd];
  }

  /** The body and trailing captures of the cuts of a match are as short and as long as the pattern makes them. */
  lemma CutsBody(s: string, c: Cuts)
    requires MatchCuts(s, c)
    ensures var b := BlockAt(s, c);
      && AllBlank(b.trailing)
      && (b.body == [] || !IsBlank(b.body[|b.body| - 1]))
      && (forall k :: 0 <= k < |b.body| + |b.trailing| ==> !FenceAt(b.body + b.trailing + Ticks, k))
  {
    var b := BlockAt(s, c);
    forall k | 0 <= k < |b.body| + |b.trailing|
      ensures !FenceAt(b.body + b.trailing + Ticks, k)
    {
      BodyRegionChar(s, c, k);
      BodyRegionChar(s, c, k + 1);
      BodyRegionChar(s, c, k + 2);
      assert !FenceAt(s, c.newline + 1 + k);
    }
  }

  /** Cuts of a match give the leftmost-first match. */
  lemma CutsLeftmost(s: string, c: Cuts)
    requires MatchCuts(s, c)
    ensures c.start + Size(BlockAt(s, c)) == c.close + 3
    ensures Leftmost(s, c.start, BlockAt(s, c))
  {
    RenderCuts(s, c);
    CutsHeader(s, c);
    CutsBody(s, c);
  }

  /** The header slices of `s` at the cuts of a placed block are its header captures. */
  lemma HeaderSlices(s: string, p: nat, b: Block)
    requires Placed(s, p, b)
    ensures var c := CutsOf(p, b);
      && Ordered(s, c)
      && s[c.start + 3..c.tagStart] == b.leading && s[c.tagStart..c.tagEnd] == b.lang && s[c.tagEnd..c.newline] == b.rest
  {
    var c := CutsOf(p, b);
    forall k | c.start + 3 <= k < c.newline
      ensures k < c.tagStart ==> s[k] == b.leading[k - c.start - 3]
      ensures c.tagStart <= k < c.tagEnd ==> s[k] == b.lang[k - c.tagStart]
      ensures c.tagEnd <= k ==> s[k] == b.rest[k - c.tagEnd]
    {
      PlacedChar(s, p, b, k);
      RenderChar(b, k - p);
    }
    assert s[c.start + 3..c.tagStart] == b.leading;
    assert s[c.tagStart..c.tagEnd] == b.lang;
    assert s[c.tagEnd..c.newline] == b.rest;
  }

  /** The characters of `s` from the newline of a placed block on are those of body + trailing + Ticks. */
  lemma PlacedBodyChar(s: string, p: nat, b: Block, k: nat)
    requires Placed(s, p, b) && CutsOf(p, b).newline < k < p + Size(b)
    ensures s[k] == (b.body + b.trailing + Ticks)[k - CutsOf(p, b).newline - 1]
  {
    PlacedChar(s, p, b, k);
    RenderChar(b, k - p);
  }

  /** The body slices of `s` at the cuts of a placed block are its body captures. */
  lemma BodySlices(s: string, p: nat, b: Block)
    requires Placed(s, p, b)
    ensures var c := CutsOf(p, b);
      && Ordered(s, c)
      && s[c.newline + 1..c.trailStart] == b.body && s[c.trailStart..c.close] == b.trailing
  {
    var c := CutsOf(p, b);
    forall k | c.newline + 1 <= k < c.close
      ensures k < c.trailStart ==> s[k] == b.body[k - c.newline - 1]
      ensures c.trailStart <= k ==> s[k] == b.trailing[k - c.trailStart]
    {
      PlacedBodyChar(s, p, b, k);
    }
    assert s[c.newline + 1..c.trailStart] == b.body;
    assert s[c.trailStart..c.close] == b.trailing;
  }

  /** A placed block has its fences and its newline at its cuts, and the slices there are its captures. */
  lemma LeftmostSlices(s: string, p: nat, b: Block)
    requires Placed(s, p, b)
    ensures Ordered(s, CutsOf(p, b))
    ensures FenceAt(s, p) && s[CutsOf(p, b).newline] == '\n' && FenceAt(s, CutsOf(p, b).close)
    ensures BlockAt(s, CutsOf(p, b)) == b
  {
    var c := CutsOf(p, b);
    HeaderSlices(s, p, b);
    BodySlices(s, p, b);
    PlacedChar(s, p, b, p);
    PlacedChar(s, p, b, p + 1);
    PlacedChar(s, p, b, p + 2);
    PlacedChar(s, p, b, c.newline);
    RenderChar(b, c.newline - p);
    PlacedBodyChar(s, p, b, c.close);
    PlacedBodyChar(s, p, b, c.close + 1);
    PlacedBodyChar(s, p, b, c.close + 2);
  }

  lemma NoNewlineInHeader(s: string, p: nat, b: Block, k: nat)
    requires Placed(s, p, b) && WellFormed(b)
    requires p + 3 <= k < CutsOf(p, b).newline
    ensures s[k] != '\n'
  {
    PlacedChar(s, p, b, k);
    RenderChar(b, k - p);
  }

  lemma NoFenceInBody(s: string, p: nat, b: Block, k: nat)
    requires Placed(s, p, b)
    requires forall i :: 0 <= i < |b.body| + |b.trailing| ==> !FenceAt(b.body + b.trailing + Ticks, i)
    requires CutsOf(p, b).newline + 1 <= k < CutsOf(p, b).close
    ensures !FenceAt(s, k)
  {
    var i := k - CutsOf(p, b).newline - 1;
    assert !FenceAt(b.body + b.trailing + Ticks, i);
    PlacedBodyChar(s, p, b, k);
    PlacedBodyChar(s, p, b, k + 1);
    PlacedBodyChar(s, p, b, k + 2);
  }

  lemma HeaderChars(s: string, p: nat, b: Block)
    requires Placed(s, p, b) && WellFormed(b)
    ensures var c := CutsOf(p, b);
      && Ordered(s, c)
      && (forall k :: c.start + 3 <= k < c.tagStart ==> IsBlank(s[k])) && !IsBlank(s[c.tagStart])
      && (forall k :: c.tagStart <= k < c.tagEnd ==> IsTagChar(s[k])) && !IsTagChar(s[c.tagEnd])
  {
    var c := CutsOf(p, b);
    forall k | c.start + 3 <= k <= c.newline
      ensures k < c.tagStart ==> IsBlank(s[k])
      ensures c.tagStart <= k < c.tagEnd ==> IsTagChar(s[k])
      ensures k == c.tagStart ==> s[k] == (b.lang + b.rest + "\n")[0]
      ensures k == c.tagEnd ==> s[k] == (b.rest + "\n")[0]
    {
      PlacedChar(s, p, b, k);
      RenderChar(b, k - p);
    }
  }

  lemma TrailerChars(s: string, p: nat, b: Block)
    requires Placed(s, p, b) && WellFormed(b)
    ensures var c := CutsOf(p, b);
      && Ordered(s, c)
      && (forall k :: c.trailStart <= k < c.close ==> IsBlank(s[k]))
      && (c.trailStart == c.newline + 1 || !IsBlank(s[c.trailStart - 1]))
  {
    var c := CutsOf(p, b);
    forall k | c.newline < k < c.close
      ensures c.trailStart <= k ==> IsBlank(s[k])
      ensures k == c.trailStart - 1 ==> s[k] == b.body[|b.body| - 1]
    {
      PlacedBodyChar(s, p, b, k);
    }
  }

  /** A leftmost match has cuts, and they are the cuts of its block. */
  lemma LeftmostCuts(s: string, p: nat, b: Block)
    requires Leftmost(s, p, b)
    ensures MatchCuts(s, CutsOf(p, b))
    ensures BlockAt(s, CutsOf(p, b)) == b
  {
    var c := CutsOf(p, b);
    LeftmostSlices(s, p, b);
    HeaderChars(s, p, b);
    TrailerChars(s, p, b);
    forall k | c.start + 3 <= k < c.newline
      ensures s[k] != '\n'
    {
      NoNewlineInHeader(s, p, b, k);
    }
    forall k | c.newline + 1 <= k < c.close
      ensures !FenceAt(s, k)
    {
      NoFenceInBody(s, p, b, k);
    }
  }

  /** The cuts of a match are determined by the text alone. */
  lemma CutsUnique(s: string, c: Cuts, d: Cuts)
    requires MatchCuts(s, c) && MatchCuts(s, d)
    ensures c == d
  {
    assert FenceAt(s, c.start) && FenceAt(s, d.start);
    assert s[c.newline] == '\n' && s[d.newline] == '\n';
    assert FenceAt(s, c.close) && FenceAt(s, d.close);
    assert !IsBlank(s[c.tagStart]) && !IsBlank(s[d.tagStart]);
    assert !IsTagChar(s[c.tagEnd]) && !IsTagChar(s[d.tagEnd]);
  }

  // ---------------------------------------------------------------------------
  // FindAndConsume against the characterisation

  /** Whatever FindAndConsume returns is the leftmost-first match, and it consumes exactly that match. */
  lemma FindAndConsumeSound(input: string)
    requires FindAndConsume(input).Some?
    ensures var m := FindAndConsume(input).value;
      && 0 <= MatchStart(input, m)
      && Leftmost(input, MatchStart(input, m), m.block)
  {
    var c := Locate(input).value;
    LocateMatches(input);
    CutsLeftmost(input, c);
  }

  /** Locate finds the cuts of any match. */
  lemma LocateFinds(s: string, c: Cuts)
    requires MatchCuts(s, c)
    ensures Locate(s) == Some(c)
  {
    if Locate(s).None? {
      LocateNone(s);
      assert false;
    }
    LocateMatches(s);
    CutsUnique(s, Locate(s).value, c);
  }

  lemma LocatedConsume(s: string, c: Cuts)
    requires Locate(s) == Some(c)
    ensures FindAndConsume(s) == Some(Consumed(BlockAt(s, c), s[c.close + 3..]))
  {
  }

  /** Any leftmost-first match is what FindAndConsume returns. */
  lemma FindAndConsumeComplete(s: string, p: nat, b: Block)
    requires Leftmost(s, p, b)
    ensures FindAndConsume(s) == Some(Consumed(b, s[p + Size(b)..]))
  {
    var c := CutsOf(p, b);
    LeftmostCuts(s, p, b);
    LocateFinds(s, c);
    LocatedConsume(s, c);
    assert c.close + 3 == p + Size(b);
  }

  /** The leftmost-first match is unique. */
  lemma LeftmostUnique(s: string, p: nat, b: Block, q: nat, d: Block)
    requires Leftmost(s, p, b) && Leftmost(s, q, d)
    ensures p == q && b == d
  {
    FindAndConsumeComplete(s, p, b);
    FindAndConsumeComplete(s, q, d);
    LeftmostCuts(s, p, b);
    LeftmostCuts(s, q, d);
  }

  /** FindAndConsume fails exactly when no opening fence is followed by a newline and a closing fence. */
  lemma FindAndConsumeNone(s: string)
    ensures FindAndConsume(s).None? <==> NoBlock(s)
  {
    if FindAndConsume(s).Some? {
      var c := Locate(s).value;
      LocateMatches(s);
      assert FenceAt(s, c.start) && s[c.newline] == '\n' && FenceAt(s, c.close);
    } else {
      LocateNone(s);
    }
  }

  /**
   * Putting another well-formed block in place of the leftmost match, and
   * anything after it, makes that block the leftmost match: the text before
   * the match and the opening ticks are unchanged.
   */
  lemma Rescan(s: string, p: nat, b: Block, d: Block, x: string)
    requires Leftmost(s, p, b) && WellFormed(d)
    ensures FindAndConsume(s[..p] + Render(d) + x) == Some(Consumed(d, x))
  {
    var t := s[..p] + Render(d) + x;
    assert t[p..p + Size(d)] == Render(d);
    assert t[p + Size(d)..] == x;
    forall j | 0 <= j < p + 3
      ensures t[j] == s[j]
    {
      if j >= p {
        RenderChar(d, j - p);
        RenderChar(b, j - p);
        PlacedChar(s, p, b, j);
      }
    }
    forall k | 0 <= k < p
      ensures !FenceAt(t, k)
    {
      assert !FenceAt(s, k);
    }
    FindAndConsumeComplete(t, p, d);
  }

  /** What FindAndConsume returns is well formed. */
  lemma ConsumedWellFormed(s: string)
    requires FindAndConsume(s).Some?
    ensures 0 <= MatchStart(s, FindAndConsume(s).value) && WellFormed(FindAndConsume(s).value.block)
  {
    FindAndConsumeSound(s);
  }

  /** Rescan, stated for the match FindAndConsume found. */
  lemma ConsumeRescan(s: string, d: Block, x: string)
    requires FindAndConsume(s).Some? && WellFormed(d)
    ensures var p := MatchStart(s, FindAndConsume(s).value);
      0 <= p && FindAndConsume(s[..p] + Render(d) + x) == Some(Consumed(d, x))
  {
    var m := FindAndConsume(s).value;
    FindAndConsumeSound(s);
    Rescan(s, MatchStart(s, m), m.block, d, x);
  }
}
