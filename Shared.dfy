/**
 * The text helpers of tools/tool_core/shared.cpp: newline normalisation,
 * splitting a document at a signed line number, and the decisions that
 * readToUtf8 and saveUtf8ToFile take around iconv.
 *
 * A char stands for one byte. iconv is a parameter: given the input still
 * to convert and the room left in the output buffer, one call reports what
 * it wrote and whether it finished, ran out of room (E2BIG) or failed.
 */
module Shared {
  import opened Wrappers

  // ---------------------------------------------------------------------------
  // normalize_newlines

  predicate NoCarriageReturn(s: string) {
    forall i :: 0 <= i < |s| ==> s[i] != '\r'
  }

  /** The text with every "\r\n" and every lone '\r' turned into one '\n'. */
  function Normalized(s: string): (r: string)
    ensures NoCarriageReturn(r)
    ensures |r| <= |s|
    decreases |s|
  {
    if s == [] then []
    else if s[0] == '\r' then "\n" + Normalized(if |s| > 1 && s[1] == '\n' then s[2..] else s[1..])
    else [s[0]] + Normalized(s[1..])
  }

  /** Text without a '\r' is left as it is. */
  lemma {:induction false} NormalizedIdentity(s: string)
    requires NoCarriageReturn(s)
    ensures Normalized(s) == s
    decreases |s|
  {
    if s != [] {
      NormalizedIdentity(s[1..]);
    }
  }

  /** Normalising twice is normalising once. */
  lemma NormalizedIdempotent(s: string)
    ensures Normalized(Normalized(s)) == Normalized(s)
  {
    NormalizedIdentity(Normalized(s));
  }

  /** Normalisation works piece by piece, as long as the cut does not separate a '\r' from the '\n' after it. */
  lemma {:induction false} NormalizedConcat(a: string, b: string)
    requires a == [] || b == [] || a[|a| - 1] != '\r' || b[0] != '\n'
    ensures Normalized(a + b) == Normalized(a) + Normalized(b)
    decreases |a|
  {
    if a == [] {
      assert a + b == b;
    } else {
      var k := if a[0] == '\r' && |a| > 1 && a[1] == '\n' then 2 else 1;
      var u := if a[0] == '\r' then "\n" else [a[0]];
      NormalizedFirst(a, b, k, u);
      NormalizedConcat(a[k..], b);
      StepAssoc(u, Normalized(a[k..]), Normalized(b), Normalized(a + b), Normalized(a));
    }
  }

  /** The first rewriting unit of `a + b` is the first unit of `a`, when the cut keeps "\r\n" together. */
  lemma NormalizedFirst(a: string, b: string, k: nat, u: string)
    requires a != [] && (b == [] || a[|a| - 1] != '\r' || b[0] != '\n')
    requires k == if a[0] == '\r' && |a| > 1 && a[1] == '\n' then 2 else 1
    requires u == if a[0] == '\r' then "\n" else [a[0]]
    ensures (a + b)[k..] == a[k..] + b
    ensures Normalized(a + b) == u + Normalized(a[k..] + b)
    ensures Normalized(a) == u + Normalized(a[k..])
  {
    var s := a + b;
    assert s[0] == a[0];
    assert s[k..] == a[k..] + b;
    if |s| > 1 {
      assert s[1] == if |a| > 1 then a[1] else b[0];
    }
  }

  lemma StepAssoc(u: string, x: string, y: string, full: string, left: string)
    requires full == u + (x + y) && left == u + x
    ensures full == left + y
  {
  }

  /** The three rewriting units: "\r\n" and a lone '\r' become '\n', anything else is copied. */
  lemma NormalizedUnits(c: char)
    ensures Normalized("\r\n") == "\n"
    ensures Normalized("\r") == "\n"
    ensures c != '\r' ==> Normalized([c]) == [c]
  {
    assert "\r\n"[2..] == [];
    assert "\r"[1..] == [];
    assert [c][1..] == [];
  }

  /** The push_back loop of normalize_newlines. */
  method NormalizeNewlines(str: string) returns (out: string)
    ensures out == Normalized(str)
  {
    out := [];
    var i := 0;
    while i < |str|
      invariant 0 <= i <= |str|
      invariant out + Normalized(str[i..]) == Normalized(str)
    {
      var next := i + 1;
      if str[i] == '\r' {
        if i + 1 < |str| && str[i + 1] == '\n' {
          next := i + 2;
        }
        NormalizeStep(str, i, next, out, ['\n']);
        out := out + ['\n'];
      } else {
        NormalizeStep(str, i, next, out, [str[i]]);
        out := out + [str[i]];
      }
      i := next;
    }
    NormalizeDone(str, i, out);
  }

  /** One push_back of the loop: the unit at `i` ends at `next` and is written as `u`. */
  lemma NormalizeStep(str: string, i: nat, next: nat, out: string, u: string)
    requires i < |str| && out + Normalized(str[i..]) == Normalized(str)
    requires next == if str[i] == '\r' && i + 1 < |str| && str[i + 1] == '\n' then i + 2 else i + 1
    requires u == if str[i] == '\r' then "\n" else [str[i]]
    ensures next <= |str| && (out + u) + Normalized(str[next..]) == Normalized(str)
  {
    UnitAt(str, i, next, u);
    StepAssoc(out, u, Normalized(str[next..]), out + (u + Normalized(str[next..])), out + u);
  }

  /** The rewriting unit that starts at `i` ends at `next` and becomes `u`. */
  lemma UnitAt(str: string, i: nat, next: nat, u: string)
    requires i < |str|
    requires next == if str[i] == '\r' && i + 1 < |str| && str[i + 1] == '\n' then i + 2 else i + 1
    requires u == if str[i] == '\r' then "\n" else [str[i]]
    ensures next <= |str| && Normalized(str[i..]) == u + Normalized(str[next..])
  {
    var rest := str[i..];
    assert rest[0] == str[i];
    if next == i + 2 {
      assert rest[1] == '\n';
      assert rest[2..] == str[i + 2..];
    } else {
      assert rest[1..] == str[i + 1..];
      if |rest| > 1 {
        assert rest[1] == str[i + 1];
      }
    }
  }

  lemma NormalizeDone(str: string, i: nat, out: string)
    requires |str| <= i <= |str| && out + Normalized(str[i..]) == Normalized(str)
    ensures out == Normalized(str)
  {
    assert str[i..] == [];
  }

  // ---------------------------------------------------------------------------
  // tool::splitFromLine

  /** The number of newlines in `s`. */
  function CountNewlines(s: string): nat {
    if s == [] then 0 else CountNewlines(s[..|s| - 1]) + (if s[|s| - 1] == '\n' then 1 else 0)
  }

  /** The line starts the table collects from data[..n]: i + 1 for each '\n' at i, unless it is the last byte. */
  function Starts(data: string, n: nat): (r: seq<nat>)
    requires n <= |data|
    ensures forall j :: 0 <= j < |r| ==> 0 < r[j] <= n && r[j] < |data| && data[r[j] - 1] == '\n'
  {
    if n == 0 then []
    else Starts(data, n - 1) + (if data[n - 1] == '\n' && n < |data| then [n] else [])
  }

  /** line_positions: 0, the collected starts, and data.size() when the last entry is not already that. */
  function LineTable(data: string): (t: seq<nat>)
    ensures |t| > 0 && t[0] == 0
    ensures forall j :: 0 <= j < |t| ==> t[j] <= |data| && (t[j] == 0 || t[j] == |data| || data[t[j] - 1] == '\n')
  {
    var t := [0] + Starts(data, |data|);
    if t[|t| - 1] != |data| then t + [|data|] else t
  }

  /** The collected start at index j follows the (j+1)-th newline, and the starts count the newlines before n. */
  lemma {:induction false} StartsFacts(data: string, n: nat)
    requires n <= |data|
    ensures n < |data| ==> CountNewlines(data[..n]) == |Starts(data, n)|
    ensures forall j :: 0 <= j < |Starts(data, n)| ==>
      var p := Starts(data, n)[j];
      p <= |data| && CountNewlines(data[..p]) == j + 1
  {
    if n > 0 {
      StartsFacts(data, n - 1);
      assert data[..n][..n - 1] == data[..n - 1];
    }
  }

  /** For non-empty data the table is 0, every line start after a newline, and data.size(). */
  lemma LineTableShape(data: string)
    requires data != []
    ensures LineTable(data) == [0] + Starts(data, |data|) + [|data|]
  {
    StartsFacts(data, |data|);
    var s := Starts(data, |data|);
    if s != [] {
      assert s[|s| - 1] < |data|;
    }
  }

  /** Where splitFromLine cuts `data`. */
  function SplitPosition(data: string, line: int): (p: nat)
    ensures p <= |data|
    ensures p == 0 || p == |data| || data[p - 1] == '\n'
  {
    if data == [] || line == 0 then |data|
    else
      var table := LineTable(data);
      var total := |table|;
      if line > 0 then
        if line > total then |data| else table[line - 1]
      else
        var fromEnd := -line;
        if fromEnd > total then 0
        else
          var target := total - fromEnd;
          if target + 1 < total then table[target + 1] else |data|
  }

  /** The line_positions loop of tool::splitFromLine. */
  method LinePositions(data: string) returns (positions: seq<nat>)
    ensures positions == LineTable(data)
  {
    positions := [0];
    var i := 0;
    while i < |data|
      invariant 0 <= i <= |data|
      invariant positions == [0] + Starts(data, i)
    {
      if data[i] == '\n' {
        if i + 1 < |data| {
          positions := positions + [i + 1];
        }
      }
      i := i + 1;
    }
    if positions[|positions| - 1] != |data| {
      positions := positions + [|data|];
    }
  }

  /** The two parts of a cut at `p` put back together give the text. */
  lemma CutAt(data: string, p: nat)
    requires p <= |data|
    ensures data[..p] + data[p..] == data
  {
  }

  lemma CutAtEnd(data: string)
    ensures data[..|data|] == data && data[|data|..] == ""
  {
  }

  lemma CutAtStart(data: string)
    ensures data[..0] == "" && data[0..] == data
  {
  }

  /** tool::splitFromLine: the table of line starts, then the cut. */
  method SplitFromLine(data: string, line: int) returns (head: string, tail: string)
    ensures head + tail == data
    ensures head == data[..SplitPosition(data, line)] && tail == data[SplitPosition(data, line)..]
  {
    if |data| == 0 || line == 0 {
      CutAtEnd(data);
      CutAt(data, |data|);
      return data, "";
    }
    var positions := LinePositions(data);
    var total := |positions|;
    var split := 0;
    if line > 0 {
      if line > total {
        CutAtEnd(data);
        CutAt(data, |data|);
        return data, "";
      }
      split := positions[line - 1];
    } else {
      var fromEnd := -line;
      if fromEnd > total {
        CutAtStart(data);
        CutAt(data, 0);
        return "", data;
      }
      var target := total - fromEnd;
      if target + 1 < total {
        split := positions[target + 1];
      } else {
        split := |data|;
      }
    }
    CutAt(data, split);
    head, tail := data[..split], data[split..];
  }

  /** The number of entries of line_positions: one more than the lines of the text. */
  function TotalLines(data: string): nat {
    |LineTable(data)|
  }

  /**
   * A positive line below the table size puts the text before that 1-based
   * line in the head: it holds line - 1 newlines and ends with one. At the
   * table size the tail is empty, and beyond it nothing is split off.
   */
  lemma SplitPositive(data: string, line: int)
    requires data != [] && line > 0
    ensures var p := SplitPosition(data, line);
      && p <= |data|
      && (line < TotalLines(data) ==>
            CountNewlines(data[..p]) == line - 1 && (p == 0 || data[p - 1] == '\n'))
      && (line >= TotalLines(data) ==> p == |data|)
  {
    LineTableShape(data);
    StartsFacts(data, |data|);
    var s := Starts(data, |data|);
    var table := LineTable(data);
    if 1 < line < TotalLines(data) {
      assert table[line - 1] == s[line - 2];
    }
  }

  /**
   * A negative line -k with k within the table cuts where the positive line
   * total - k + 2 cuts, so the tail holds the last k - 2 lines of the text,
   * one fewer than the k - 1 that "the k-th line from the end goes to the
   * head" would give. Beyond the table everything goes to the tail.
   */
  lemma SplitNegative(data: string, k: int)
    requires data != [] && k > 0
    ensures k <= TotalLines(data) ==> SplitPosition(data, -k) == SplitPosition(data, TotalLines(data) - k + 2)
    ensures k > TotalLines(data) ==> SplitPosition(data, -k) == 0
  {
    var total := TotalLines(data);
    if k <= total {
      var cut := if k > 1 then LineTable(data)[total - k + 1] else |data|;
      assert SplitPosition(data, -k) == cut;
      assert SplitPosition(data, total - k + 2) == cut;
    }
  }

  /** Both -1 and -2 leave the whole text in the head. */
  lemma SplitLastLines(data: string)
    ensures SplitPosition(data, -1) == |data|
    ensures SplitPosition(data, -2) == |data|
  {
    if data != [] {
      LineTableShape(data);
    }
  }

  /** The line table of the three-line text "a\nb\nc": 0, the starts of its second and third lines, and its size. */
  lemma ExampleTable()
    ensures LineTable("a\nb\nc") == [0, 2, 4, 5]
  {
    StartsExample();
    assert [0] + [2, 4] == [0, 2, 4];
  }

  lemma StartsExample()
    ensures Starts("a\nb\nc", 5) == [2, 4]
  {
    var d := "a\nb\nc";
    assert d[0] == 'a' && d[1] == '\n' && d[2] == 'b' && d[3] == '\n' && d[4] == 'c';
    assert Starts(d, 1) == [];
    assert Starts(d, 2) == [2];
    assert Starts(d, 3) == [2];
    assert Starts(d, 4) == [2, 4];
  }

  /** A three-line text: line 2 starts the tail, -3 keeps only the last line in the tail, -2 keeps nothing there. */
  lemma SplitExamples()
    ensures SplitPosition("a\nb\nc", 2) == 2
    ensures SplitPosition("a\nb\nc", -3) == 4
    ensures SplitPosition("a\nb\nc", -2) == 5
    ensures SplitPosition("a\nb\nc", 9) == 5
    ensures SplitPosition("a\nb\nc", -9) == 0
  {
    ExampleTable();
  }

  // ---------------------------------------------------------------------------
  // The iconv calls of readToUtf8 and saveUtf8ToFile

  /** What one iconv call did: finished, stopped with E2BIG after consuming some input, or failed otherwise. */
  datatype IconvStep = Converted(out: string) | OutputFull(consumed: nat, out: string) | Failed(out: string)

  /** One iconv call on a fixed descriptor: the input still to convert and the room in the output buffer. */
  type Iconv = (string, nat) -> IconvStep

  /** The temp buffer of readToUtf8. */
  const Chunk: nat := 65536

  /** iconv never writes more than the room it is given. */
  ghost predicate RespectsRoom(iconv: Iconv) {
    forall rest, room :: |iconv(rest, room).out| <= room
  }

  /** An E2BIG stop into a Chunk-sized buffer has consumed some input. */
  ghost predicate ChunkProgress(iconv: Iconv) {
    forall rest :: iconv(rest, Chunk).OutputFull? ==> 0 < iconv(rest, Chunk).consumed <= |rest|
  }

  /** The output of the chunk loop: every call's output in order, None after a failure other than E2BIG. */
  function ChunkedConvert(iconv: Iconv, rest: string): Option<string>
    requires ChunkProgress(iconv)
    decreases |rest|
  {
    match iconv(rest, Chunk)
    case Converted(o) => Some(o)
    case Failed(_) => None
    case OutputFull(c, o) =>
      match ChunkedConvert(iconv, rest[c..])
      case None => None
      case Some(t) => Some(o + t)
  }

  /** The output a stateless single-byte charset gives: each byte mapped on its own. */
  function MapBytes(unit: char -> string, s: string): string {
    if s == [] then [] else unit(s[0]) + MapBytes(unit, s[1..])
  }

  lemma {:induction false} MapBytesConcat(unit: char -> string, a: string, b: string)
    ensures MapBytes(unit, a + b) == MapBytes(unit, a) + MapBytes(unit, b)
    decreases |a|
  {
    if a != [] {
      assert (a + b)[0] == a[0];
      assert (a + b)[1..] == a[1..] + b;
      MapBytesConcat(unit, a[1..], b);
    } else {
      assert a + b == b;
    }
  }

  /** iconv for a single-byte charset: each call converts a non-empty prefix byte by byte, and never fails. */
  ghost predicate SingleByte(iconv: Iconv, unit: char -> string) {
    forall rest ::
      && !iconv(rest, Chunk).Failed?
      && (iconv(rest, Chunk).Converted? ==> iconv(rest, Chunk).out == MapBytes(unit, rest))
      && (iconv(rest, Chunk).OutputFull? ==>
            0 < iconv(rest, Chunk).consumed <= |rest| && iconv(rest, Chunk).out == MapBytes(unit, rest[..iconv(rest, Chunk).consumed]))
  }

  /** A single-byte conversion always makes progress on a full output buffer. */
  lemma SingleByteProgress(iconv: Iconv, unit: char -> string)
    requires SingleByte(iconv, unit)
    ensures ChunkProgress(iconv)
  {
    forall r | iconv(r, Chunk).OutputFull?
      ensures 0 < iconv(r, Chunk).consumed <= |r|
    {
    }
  }

  /** For a single-byte charset the chunks glue together to the byte-by-byte conversion of the whole input. */
  lemma {:induction false} ChunkedSingleByte(iconv: Iconv, unit: char -> string, rest: string)
    requires SingleByte(iconv, unit)
    ensures ChunkProgress(iconv)
    ensures ChunkedConvert(iconv, rest) == Some(MapBytes(unit, rest))
    decreases |rest|
  {
    SingleByteProgress(iconv, unit);
    var step := iconv(rest, Chunk);
    if step.OutputFull? {
      var c := step.consumed;
      ChunkedSingleByte(iconv, unit, rest[c..]);
      GlueChunk(unit, rest, c, step.out, MapBytes(unit, rest[c..]));
    }
  }

  /** The conversion of a prefix followed by that of the rest is the conversion of the whole. */
  lemma GlueChunk(unit: char -> string, rest: string, c: nat, o: string, t: string)
    requires c <= |rest| && o == MapBytes(unit, rest[..c]) && t == MapBytes(unit, rest[c..])
    ensures o + t == MapBytes(unit, rest)
  {
    MapBytesConcat(unit, rest[..c], rest[c..]);
    assert rest[..c] + rest[c..] == rest;
  }

  function Prepend(o: string, r: Option<string>): Option<string> {
    match r
    case None => None
    case Some(t) => Some(o + t)
  }

  lemma PrependEmpty(r: Option<string>)
    ensures Prepend("", r) == r
  {
    if r.Some? {
      assert "" + r.value == r.value;
    }
  }

  lemma PrependPrepend(a: string, b: string, r: Option<string>)
    ensures Prepend(a, Prepend(b, r)) == Prepend(a + b, r)
  {
    if r.Some? {
      assert a + (b + r.value) == a + b + r.value;
    }
  }

  /** The E2BIG loop of readToUtf8. */
  method ConvertChunks(iconv: Iconv, input: string) returns (r: Option<string>)
    requires ChunkProgress(iconv)
    ensures r == ChunkedConvert(iconv, input)
  {
    var rest := input;
    var output := "";
    PrependEmpty(ChunkedConvert(iconv, input));
    while true
      invariant |rest| <= |input|
      invariant Prepend(output, ChunkedConvert(iconv, rest)) == ChunkedConvert(iconv, input)
      decreases |rest|
    {
      var step := iconv(rest, Chunk);
      match step {
        case Converted(o) =>
          return Some(output + o);
        case OutputFull(c, o) =>
          PrependPrepend(output, o, ChunkedConvert(iconv, rest[c..]));
          output := output + o;
          rest := rest[c..];
        case Failed(_) =>
          return None;
      }
    }
  }

  /** The UTF-8 byte order mark. */
  const Bom: string := [0xEF as char, 0xBB as char, 0xBF as char]

  predicate HasBom(input: string) {
    |input| >= 3 && input[..3] == Bom
  }

  /**
   * What encoding::readToUtf8 returns once the file is read: `bytes` is None
   * when the name is null, the file does not open, or its size or content
   * cannot be read; `openOk` says whether iconv_open(charset -> UTF-8)
   * succeeds.
   */
  function ReadUtf8(bytes: Option<string>, charset: string, openOk: bool, iconv: Iconv): (r: Option<string>)
    requires ChunkProgress(iconv)
    ensures bytes.None? ==> r.None?
    ensures r.Some? ==> NoCarriageReturn(r.value)
  {
    if bytes.None? then None
    else if HasBom(bytes.value) then Some(Normalized(bytes.value[3..]))
    else if charset == "UTF-8" || charset == "UTF8" then Some(Normalized(bytes.value))
    else if !openOk then None
    else
      match ChunkedConvert(iconv, bytes.value)
      case None => None
      case Some(t) => Some(Normalized(t))
  }

  /** The steps of encoding::readToUtf8 after the read. */
  method ReadToUtf8(bytes: Option<string>, charset: string, openOk: bool, iconv: Iconv) returns (r: Option<string>)
    requires ChunkProgress(iconv)
    ensures r == ReadUtf8(bytes, charset, openOk, iconv)
  {
    if bytes.None? {
      return None;
    }
    var input := bytes.value;
    if |input| >= 3 && input[0] == 0xEF as char && input[1] == 0xBB as char && input[2] == 0xBF as char {
      assert HasBom(input);
      var out := NormalizeNewlines(input[3..]);
      return Some(out);
    }
    if charset == "UTF-8" || charset == "UTF8" {
      var out := NormalizeNewlines(input);
      return Some(out);
    }
    if !openOk {
      return None;
    }
    var converted := ConvertChunks(iconv, input);
    if converted.None? {
      return None;
    }
    var out := NormalizeNewlines(converted.value);
    return Some(out);
  }

  /**
   * A byte order mark wins over the charset and is dropped; "UTF-8" and
   * "UTF8" skip iconv; any other charset is converted chunk by chunk.
   */
  lemma ReadUtf8Shortcuts(input: string, charset: string, openOk: bool, iconv: Iconv)
    requires ChunkProgress(iconv)
    ensures HasBom(input) ==> ReadUtf8(Some(input), charset, openOk, iconv) == Some(Normalized(input[3..]))
    ensures !HasBom(input) && (charset == "UTF-8" || charset == "UTF8") ==>
      ReadUtf8(Some(input), charset, openOk, iconv) == Some(Normalized(input))
    ensures !HasBom(input) && charset != "UTF-8" && charset != "UTF8" ==>
      (ReadUtf8(Some(input), charset, openOk, iconv).Some? <==> openOk && ChunkedConvert(iconv, input).Some?)
  {
  }

  /** With a single-byte charset and no byte order mark, the read is the byte-by-byte mapping, normalised. */
  lemma ReadUtf8SingleByte(input: string, charset: string, iconv: Iconv, unit: char -> string)
    requires SingleByte(iconv, unit) && !HasBom(input) && charset != "UTF-8" && charset != "UTF8"
    ensures ChunkProgress(iconv)
    ensures ReadUtf8(Some(input), charset, true, iconv) == Some(Normalized(MapBytes(unit, input)))
  {
    ChunkedSingleByte(iconv, unit, input);
  }

  /**
   * What saveUtf8ToFile hands to file.write, if it gets that far, and
   * whether it reports success.
   */
  datatype Saved = Saved(ok: bool, written: Option<string>)

  /**
   * encoding::saveUtf8ToFile: an empty charset or exactly "UTF-8" writes the
   * data as it is; any other charset needs iconv_open(UTF-8 -> charset) and
   * one iconv call into a buffer of four times the data. `fileOpenOk` is
   * whether the ofstream opens, `writeOk` whether it is still good after
   * the write (a failed write may leave part of `written` in the file).
   */
  function SaveUtf8ToFile(data: string, charset: string, openOk: bool, iconv: Iconv, fileOpenOk: bool, writeOk: bool): (r: Saved)
    ensures r.ok <==> r.written.Some? && writeOk
    ensures r.written.Some? ==> fileOpenOk
    ensures charset == [] || charset == "UTF-8" ==>
      (r.written.Some? <==> fileOpenOk) && (r.written.Some? ==> r.written.value == data)
    ensures charset != [] && charset != "UTF-8" ==>
      (r.written.Some? <==> openOk && iconv(data, 4 * |data|).Converted? && fileOpenOk)
    ensures charset != [] && charset != "UTF-8" && r.written.Some? ==>
      r.written.value == iconv(data, 4 * |data|).out
  {
    if charset == [] || charset == "UTF-8" then
      if fileOpenOk then Saved(writeOk, Some(data)) else Saved(false, None)
    else if !openOk then Saved(false, None)
    else
      match iconv(data, 4 * |data|)
      case Converted(o) => if fileOpenOk then Saved(writeOk, Some(o)) else Saved(false, None)
      case OutputFull(_, _) => Saved(false, None)
      case Failed(_) => Saved(false, None)
  }

  /** The file never receives more than four bytes per byte of data. */
  lemma SaveBounded(data: string, charset: string, openOk: bool, iconv: Iconv, fileOpenOk: bool, writeOk: bool)
    requires RespectsRoom(iconv)
    ensures var r := SaveUtf8ToFile(data, charset, openOk, iconv, fileOpenOk, writeOk);
      r.written.Some? ==> |r.written.value| <= 4 * |data|
  {
    var room := 4 * |data|;
    assert |iconv(data, room).out| <= room;
  }

  /** Only the exact spelling "UTF-8" skips iconv: "UTF8" and "utf-8" are converted, and fail when iconv_open fails. */
  lemma SaveSpellings(data: string, iconv: Iconv, fileOpenOk: bool, writeOk: bool)
    ensures SaveUtf8ToFile(data, "UTF8", false, iconv, fileOpenOk, writeOk) == Saved(false, None)
    ensures SaveUtf8ToFile(data, "utf-8", false, iconv, fileOpenOk, writeOk) == Saved(false, None)
  {
  }
}
